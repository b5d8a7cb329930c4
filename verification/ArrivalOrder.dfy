/** Whether the threshold clock depends on the order in which accepted blocks reach it. */
module ArrivalOrder {
  import opened Committees
  import opened Blocks
  import opened BlockVerifier
  import opened Dags
  import opened ThresholdClocks

  /** After recovery blocks arrive as they are accepted: new ones, each once and after all it references. */
  ghost predicate Arrivals(stored: Dag, u: Dag, blocks: seq<BlockRef>) {
    forall i :: 0 <= i < |blocks| ==> Arrives(stored, u, blocks, i)
  }

  ghost predicate Arrives(stored: Dag, u: Dag, blocks: seq<BlockRef>, i: nat)
    requires i < |blocks|
  {
    && blocks[i] in u && blocks[i] !in stored && blocks[i] !in blocks[..i]
    && forall a :: a in Parents(u[blocks[i]]) ==> a in stored || a in blocks[..i]
  }

  /** One restart of an authority, and two orders in which the same blocks may then arrive. */
  ghost predicate TwoOrders(ctx: Context, u: Dag, byzantine: set<nat>, stored: Dag, quorum: seq<BlockRef>, round: nat,
                            xs: seq<BlockRef>, ys: seq<BlockRef>)
  {
    && BftUniverse(ctx, u, byzantine) && ViewOf(stored, u) && HasGenesis(ctx, stored)
    && LastQuorumOf(ctx.committee, stored, quorum, round)
    && Arrivals(stored, u, xs) && Arrivals(stored, u, ys) && forall r :: r in xs <==> r in ys
  }

  ghost function ClockAfter(c: Committee, quorum: seq<BlockRef>, blocks: seq<BlockRef>): Clock {
    TickAll(c, TickAll(c, START, quorum), blocks)
  }

  ghost predicate OrderNeverMatters(c: Committee) {
    forall ctx: Context, u, byzantine, stored, quorum, round: nat, xs, ys ::
      ctx.committee == c && TwoOrders(ctx, u, byzantine, stored, quorum, round, xs, ys)
      ==> ClockAfter(c, quorum, xs) == ClockAfter(c, quorum, ys)
  }

  /** The order matters exactly when some authority is a quorum alone and is not the only one. */
  lemma OrderNeverMattersExactly(c: Committee)
    requires c.WellFormed()
    ensures OrderNeverMatters(c) <==> NoSoleQuorum(c) || c.Size() == 1
  {
    hide TwoOrders;
    hide ClockAfter;
    if NoSoleQuorum(c) || c.Size() == 1 {
      forall ctx: Context, u, byzantine, stored, quorum, round: nat, xs, ys |
        ctx.committee == c && TwoOrders(ctx, u, byzantine, stored, quorum, round, xs, ys)
        ensures ClockAfter(c, quorum, xs) == ClockAfter(c, quorum, ys)
      {
        if NoSoleQuorum(c) {
          ManyAuthorities(ctx, u, byzantine, stored, quorum, round, xs, ys);
        } else {
          OneAuthority(ctx, u, byzantine, stored, quorum, round, xs, ys);
        }
      }
    } else {
      var a :| 0 <= a < c.Size() && c.IsQuorum({a});
      var b := if a == 0 then 1 else 0;
      OrderMatters(c, a, b);
    }
  }

  // ---------------------------------------------------------------- no authority is a quorum alone

  lemma {:induction false} TickAllConcat(c: Committee, k: Clock, xs: seq<BlockRef>, ys: seq<BlockRef>)
    ensures TickAll(c, k, xs + ys) == TickAll(c, TickAll(c, k, xs), ys)
    decreases |ys|
  {
    if ys == [] {
      assert xs + ys == xs;
    } else {
      var n := |ys| - 1;
      TickAllConcat(c, k, xs, ys[..n]);
      assert (xs + ys)[..|xs| + n] == xs + ys[..n];
    }
  }

  lemma ArrivalsAreKnown(ctx: Context, u: Dag, stored: Dag, quorum: seq<BlockRef>, xs: seq<BlockRef>)
    requires ValidDag(ctx, u) && ViewOf(stored, u) && Arrivals(stored, u, xs) && forall r :: r in quorum ==> r in stored
    ensures KnownAuthors(ctx.committee, quorum + xs)
  {
    var all := quorum + xs;
    forall i | 0 <= i < |all| ensures ctx.committee.IsValidIndex(all[i].author) {
      assert i >= |quorum| ==> Arrives(stored, u, xs, i - |quorum|);
      assert all[i] in u;
      assert CausalEntry(u, all[i]) && ValidEntry(ctx, u, all[i]);
    }
  }

  lemma ManyAuthorities(ctx: Context, u: Dag, byzantine: set<nat>, stored: Dag, quorum: seq<BlockRef>, round: nat,
                        xs: seq<BlockRef>, ys: seq<BlockRef>)
    requires TwoOrders(ctx, u, byzantine, stored, quorum, round, xs, ys) && NoSoleQuorum(ctx.committee)
    ensures ClockAfter(ctx.committee, quorum, xs) == ClockAfter(ctx.committee, quorum, ys)
  {
    hide ValidBlock;
    ArrivalsAreKnown(ctx, u, stored, quorum, xs);
    ArrivalsAreKnown(ctx, u, stored, quorum, ys);
    OrderIsIrrelevant(ctx.committee, quorum + xs, quorum + ys);
    TickAllConcat(ctx.committee, START, quorum, xs);
    TickAllConcat(ctx.committee, START, quorum, ys);
  }

  // ---------------------------------------------------------------- a single authority

  lemma SoleMember(c: Committee, s: set<nat>)
    requires c.WellFormed() && c.Size() == 1
    ensures c.IsQuorum(s) <==> 0 in s
    ensures c.ReachedValidity(c.StakeOf(s)) <==> 0 in s
  {
    StakeAtMostTotal(c, s);
    ThresholdsComplement(c);
    if 0 !in s {
      StakeBelowMonotone(c.stakes, s, {}, 1);
      StakeEmpty(c);
    }
  }

  lemma SoleAuthor(ctx: Context, d: Dag, r: BlockRef)
    requires ValidDag(ctx, d) && ctx.committee.Size() == 1 && r in d
    ensures r.author == 0 && (r.round > 0 ==> exists p :: p in Parents(d[r]) && p.round + 1 == r.round)
  {
    assert CausalEntry(d, r) && ValidEntry(ctx, d, r);
    if r.round > 0 {
      SoleMember(ctx.committee, d[r].ParentAuthors());
      var i :| 0 <= i < |d[r].ancestors| && d[r].ancestors[i].round + 1 == d[r].round;
      assert d[r].ancestors[i] in Parents(d[r]);
    }
  }

  /** The store of a single authority holds a block of every round up to its last. */
  lemma {:induction false} StoredRounds(ctx: Context, d: Dag, r: BlockRef, round: nat) returns (s: BlockRef)
    requires ValidDag(ctx, d) && ctx.committee.Size() == 1 && r in d && round <= r.round
    ensures s in d && s.round == round && s.author == 0
    decreases r.round
  {
    SoleAuthor(ctx, d, r);
    s := r;
    if round < r.round {
      var p :| p in Parents(d[r]) && p.round + 1 == r.round;
      assert CausalEntry(d, r);
      s := StoredRounds(ctx, d, p, round);
    }
  }

  lemma OneARound(ctx: Context, u: Dag, byzantine: set<nat>, r: BlockRef, s: BlockRef)
    requires BftUniverse(ctx, u, byzantine) && ctx.committee.Size() == 1 && r in u && s in u && r.round == s.round
    ensures r == s
  {
    SoleMember(ctx.committee, byzantine);
    SoleAuthor(ctx, u, r);
    SoleAuthor(ctx, u, s);
    assert FollowsOwn(u, r, s);
  }

  lemma LastRound(ctx: Context, stored: Dag, quorum: seq<BlockRef>, round: nat) returns (r: BlockRef)
    requires ValidDag(ctx, stored) && ctx.committee.Size() == 1 && LastQuorumOf(ctx.committee, stored, quorum, round)
    ensures r in stored && r.round == round && forall s :: s in stored ==> s.round <= round
  {
    SoleMember(ctx.committee, SeenAt(quorum, round));
    var i :| 0 <= i < |quorum| && quorum[i].round == round;
    r := quorum[i];
    assert r in quorum;
    SoleMember(ctx.committee, AuthorsAt(stored, round + 1));
    forall s | s in stored ensures s.round <= round { SoleAuthor(ctx, stored, s); }
  }

  ghost predicate Consecutive(xs: seq<BlockRef>, round: nat) {
    forall i :: 0 <= i < |xs| ==> xs[i].round == round + 1 + i
  }

  /** The blocks of a single authority can arrive in one order only. */
  lemma ArriveInOrder(ctx: Context, u: Dag, byzantine: set<nat>, stored: Dag, quorum: seq<BlockRef>, round: nat,
                      xs: seq<BlockRef>, i: nat)
    requires BftUniverse(ctx, u, byzantine) && ctx.committee.Size() == 1 && ViewOf(stored, u)
    requires LastQuorumOf(ctx.committee, stored, quorum, round) && Arrivals(stored, u, xs) && i < |xs|
    requires forall j :: 0 <= j < i ==> xs[j].round == round + 1 + j
    ensures xs[i].round == round + 1 + i
  {
    hide BftUniverse;
    hide LastQuorumOf;
    var r := xs[i];
    assert Arrives(stored, u, xs, i);
    UniverseIsValid(ctx, u, byzantine);
    ViewIsValid(ctx, stored, u);
    var last := LastRound(ctx, stored, quorum, round);
    SoleAuthor(ctx, u, r);
    if r.round <= round {
      var s := StoredRounds(ctx, stored, last, r.round);
      OneARound(ctx, u, byzantine, r, s);
    } else if r.round < round + 1 + i {
      var j := r.round - round - 1;
      assert Arrives(stored, u, xs, j);
      assert xs[j] in xs[..i];
      OneARound(ctx, u, byzantine, r, xs[j]);
    } else {
      var p :| p in Parents(u[r]) && p.round + 1 == r.round;
    }
  }

  lemma UniverseIsValid(ctx: Context, u: Dag, byzantine: set<nat>)
    requires BftUniverse(ctx, u, byzantine)
    ensures ValidDag(ctx, u)
  {
  }

  lemma {:induction false} AllInOrder(ctx: Context, u: Dag, byzantine: set<nat>, stored: Dag, quorum: seq<BlockRef>,
                                      round: nat, xs: seq<BlockRef>, n: nat)
    requires BftUniverse(ctx, u, byzantine) && ctx.committee.Size() == 1 && ViewOf(stored, u)
    requires LastQuorumOf(ctx.committee, stored, quorum, round) && Arrivals(stored, u, xs) && n <= |xs|
    ensures forall i :: 0 <= i < n ==> xs[i].round == round + 1 + i && xs[i].author == 0
  {
    hide BftUniverse;
    hide LastQuorumOf;
    if n > 0 {
      AllInOrder(ctx, u, byzantine, stored, quorum, round, xs, n - 1);
      ArriveInOrder(ctx, u, byzantine, stored, quorum, round, xs, n - 1);
      UniverseIsValid(ctx, u, byzantine);
      assert Arrives(stored, u, xs, n - 1);
      SoleAuthor(ctx, u, xs[n - 1]);
    }
  }

  /** The clock follows, or lags one round behind after recovery. */
  lemma {:induction false} ClockFollows(c: Committee, k: Clock, xs: seq<BlockRef>, round: nat)
    requires c.WellFormed() && c.Size() == 1 && (k == Clock(round + 1, {}) || k == Clock(round, {0}))
    requires Consecutive(xs, round) && forall i :: 0 <= i < |xs| ==> xs[i].author == 0
    ensures TickAll(c, k, xs) == Clock(k.round + |xs|, k.votes)
    decreases |xs|
  {
    if xs != [] {
      ClockFollows(c, k, xs[..|xs| - 1], round);
      SoleMember(c, k.votes + {0});
    }
  }

  lemma RecoveredAlone(c: Committee, quorum: seq<BlockRef>, round: nat)
    requires c.WellFormed() && c.Size() == 1 && OneRound(quorum, round) && c.IsQuorum(SeenAt(quorum, round)) && KnownAuthors(c, quorum)
    ensures TickAll(c, START, quorum) == Clock(round + 1, {}) || TickAll(c, START, quorum) == Clock(round, {0})
  {
    SoleMember(c, SeenAt(quorum, round));
    assert SeenAt(quorum, round) == {0};
    if round == 0 { GenesisClock(c, quorum); } else { RecoveringClock(c, quorum, round); }
  }

  lemma OneAuthority(ctx: Context, u: Dag, byzantine: set<nat>, stored: Dag, quorum: seq<BlockRef>, round: nat,
                     xs: seq<BlockRef>, ys: seq<BlockRef>)
    requires TwoOrders(ctx, u, byzantine, stored, quorum, round, xs, ys) && ctx.committee.Size() == 1
    ensures ClockAfter(ctx.committee, quorum, xs) == ClockAfter(ctx.committee, quorum, ys)
  {
    hide ValidBlock;
    hide ViewOf;
    var c, k := ctx.committee, TickAll(ctx.committee, START, quorum);
    AllInOrder(ctx, u, byzantine, stored, quorum, round, xs, |xs|);
    AllInOrder(ctx, u, byzantine, stored, quorum, round, ys, |ys|);
    ArrivalsAreKnown(ctx, u, stored, quorum, []);
    assert quorum + [] == quorum;
    RecoveredAlone(c, quorum, round);
    ClockFollows(c, k, xs, round);
    ClockFollows(c, k, ys, round);
    NoLonger(xs, ys, round);
    NoLonger(ys, xs, round);
  }

  lemma NoLonger(xs: seq<BlockRef>, ys: seq<BlockRef>, round: nat)
    requires Consecutive(xs, round) && Consecutive(ys, round) && forall r :: r in xs ==> r in ys
    ensures |xs| <= |ys|
  {
    if xs != [] {
      var last := xs[|xs| - 1];
      assert last in ys;
      var i :| 0 <= i < |ys| && ys[i] == last;
      assert i == |xs| - 1;
    }
  }

  // ---------------------------------------------------------------- one of several is a quorum alone

  function Genesis(a: nat): BlockRef { BlockRef(0, a, 0) }
  function First(a: nat): BlockRef { BlockRef(1, a, 0) }
  function Second(a: nat): BlockRef { BlockRef(2, a, 0) }

  function Basic(c: Committee): Context {
    Context(c, set a | 0 <= a < c.Size() :: Genesis(a), _ => true, _ => true)
  }

  /** Authority a is a quorum alone. It has made blocks in rounds 1 and 2, and b one in round 1. */
  function PairBlock(c: Committee, a: nat, b: nat, r: BlockRef): Block {
    Block(c.epoch, r.round, r.author, 0,
          if r == First(a) then [Genesis(a)]
          else if r == Second(a) then [First(a)]
          else if r == First(b) then [Genesis(b), Genesis(a)]
          else [], [], 0)
  }

  function PairDag(c: Committee, a: nat, b: nat, more: set<BlockRef>): Dag {
    map r | r in Basic(c).genesis + {First(a)} + more :: PairBlock(c, a, b, r)
  }

  ghost predicate Pair(c: Committee, a: nat, b: nat, more: set<BlockRef>) {
    c.WellFormed() && c.IsValidIndex(a) && c.IsValidIndex(b) && a != b && c.IsQuorum({a}) && more <= {First(b), Second(a)}
  }

  lemma PairEntry(c: Committee, a: nat, b: nat, more: set<BlockRef>, r: BlockRef)
    requires Pair(c, a, b, more) && r in PairDag(c, a, b, more)
    ensures CausalEntry(PairDag(c, a, b, more), r) && ValidEntry(Basic(c), PairDag(c, a, b, more), r)
  {
    var block := PairBlock(c, a, b, r);
    if r.round > 0 {
      assert a in block.ParentAuthors() by { assert block.ancestors[if r == First(b) then 1 else 0].author == a; }
      StakeMonotone(c, {a}, block.ParentAuthors());
    }
  }

  lemma PairFollows(c: Committee, a: nat, b: nat, more: set<BlockRef>, r: BlockRef, s: BlockRef)
    requires Pair(c, a, b, more) && r in PairDag(c, a, b, more) && s in PairDag(c, a, b, more)
    requires r.author == s.author && r.round <= s.round
    ensures FollowsOwn(PairDag(c, a, b, more), r, s)
  {
  }

  lemma PairIsBft(c: Committee, a: nat, b: nat, more: set<BlockRef>)
    requires Pair(c, a, b, more)
    ensures BftUniverse(Basic(c), PairDag(c, a, b, more), {})
  {
    hide PairDag;
    hide FollowsOwn;
    hide CausalEntry;
    hide ValidEntry;
    var u, ctx := PairDag(c, a, b, more), Basic(c);
    forall r | r in u ensures CausalEntry(u, r) && ValidEntry(ctx, u, r) { PairEntry(c, a, b, more, r); }
    StakeEmpty(c);
    forall r, s | r in u && s in u && r.author == s.author && r.round <= s.round ensures FollowsOwn(u, r, s) {
      PairFollows(c, a, b, more, r, s);
    }
  }

  lemma PairHasGenesis(c: Committee, a: nat, b: nat, more: set<BlockRef>)
    requires Pair(c, a, b, more)
    ensures HasGenesis(Basic(c), PairDag(c, a, b, more))
  {
    forall x | 0 <= x < c.Size() ensures HasGenesisOf(Basic(c), x) { assert Genesis(x) in Basic(c).genesis; }
  }

  lemma PairView(c: Committee, a: nat, b: nat, more: set<BlockRef>)
    requires Pair(c, a, b, more)
    ensures ViewOf(PairDag(c, a, b, {}), PairDag(c, a, b, more))
  {
    PairIsBft(c, a, b, {});
  }

  lemma PairQuorum(c: Committee, a: nat, b: nat)
    requires Pair(c, a, b, {})
    ensures LastQuorumOf(c, PairDag(c, a, b, {}), [First(a)], 1)
  {
    assert SeenAt([First(a)], 1) == {a} by { assert [First(a)][0].author == a; }
    assert AuthorsAt(PairDag(c, a, b, {}), 2) == {};
    NoEmptyQuorum(c);
  }

  /** After a restart with that block of round 1 in store, the other two may arrive in both orders. */
  lemma OrderMatters(c: Committee, a: nat, b: nat)
    requires c.WellFormed() && c.IsValidIndex(a) && c.IsValidIndex(b) && a != b && c.IsQuorum({a})
    ensures !OrderNeverMatters(c)
  {
    hide TwoOrders;
    hide ClockAfter;
    hide PairDag;
    var xs, ys := [First(b), Second(a)], [Second(a), First(b)];
    PairOrders(c, a, b, xs, ys);
    PairClocks(c, a, b);
  }

  lemma PairOrders(c: Committee, a: nat, b: nat, xs: seq<BlockRef>, ys: seq<BlockRef>)
    requires Pair(c, a, b, {}) && xs == [First(b), Second(a)] && ys == [Second(a), First(b)]
    ensures TwoOrders(Basic(c), PairDag(c, a, b, {First(b), Second(a)}), {}, PairDag(c, a, b, {}), [First(a)], 1, xs, ys)
  {
    hide BftUniverse;
    hide ViewOf;
    hide HasGenesis;
    hide LastQuorumOf;
    hide Arrivals;
    hide PairDag;
    PairIsBft(c, a, b, {First(b), Second(a)});
    PairHasGenesis(c, a, b, {});
    PairView(c, a, b, {First(b), Second(a)});
    PairQuorum(c, a, b);
    PairArrives(c, a, b, xs);
    PairArrives(c, a, b, ys);
  }

  lemma PairArrives(c: Committee, a: nat, b: nat, xs: seq<BlockRef>)
    requires Pair(c, a, b, {}) && (xs == [First(b), Second(a)] || xs == [Second(a), First(b)])
    ensures Arrivals(PairDag(c, a, b, {}), PairDag(c, a, b, {First(b), Second(a)}), xs)
  {
    assert xs[..0] == [] && xs[..1] == [xs[0]];
  }

  lemma PairClocks(c: Committee, a: nat, b: nat)
    requires Pair(c, a, b, {})
    ensures ClockAfter(c, [First(a)], [First(b), Second(a)]) != ClockAfter(c, [First(a)], [Second(a), First(b)])
  {
    var k := Clock(1, {a});
    assert [First(a)][..0] == [];
    assert TickAll(c, START, [First(a)]) == k;
    StakeMonotone(c, {a}, {a} + {b});
    assert {} + {a} == {a};
    var xs, ys := [First(b), Second(a)], [Second(a), First(b)];
    assert xs[..1] == [First(b)] && ys[..1] == [Second(a)] && [First(b)][..0] == [] && [Second(a)][..0] == [];
    assert TickAll(c, k, [First(b)]) == Clock(2, {});
    assert TickAll(c, k, [Second(a)]) == Clock(2, {a});
    assert TickAll(c, k, xs).round == 3 && TickAll(c, k, ys).round == 2;
  }
}
