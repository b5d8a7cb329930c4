/** The block DAG. A `Dag` is a finite map from references to blocks, so a reference names one
    block only (digests do not collide). One map plays the universe of all blocks ever made;
    what a single authority has accepted is a causally closed part of it. */
module Dags {
  import opened Committees
  import opened Blocks
  import opened BlockVerifier

  type Dag = map<BlockRef, Block>

  /** The entry at r names its own block and points only at present blocks of lower rounds. */
  ghost predicate CausalEntry(d: Dag, r: BlockRef)
    requires r in d
  {
    && d[r].round == r.round
    && d[r].author == r.author
    && forall i :: 0 <= i < |d[r].ancestors| ==> d[r].ancestors[i] in d && d[r].ancestors[i].round < r.round
  }

  ghost predicate Causal(d: Dag) {
    forall r :: r in d ==> CausalEntry(d, r)
  }

  ghost predicate ValidEntry(ctx: Context, d: Dag, r: BlockRef)
    requires r in d
  {
    if r.round == GENESIS_ROUND then r in ctx.genesis && d[r].ancestors == [] else ValidBlock(ctx, d[r])
  }

  /** A DAG of accepted blocks: causally closed, every block verified, round 0 is genesis. */
  ghost predicate ValidDag(ctx: Context, d: Dag) {
    && ctx.WellFormed()
    && Causal(d)
    && forall r :: r in d ==> ValidEntry(ctx, d, r)
  }

  /** `v` is what some authority sees of `u`. */
  ghost predicate ViewOf(v: Dag, u: Dag) {
    && Causal(v)
    && forall r :: r in v ==> r in u && v[r] == u[r]
  }

  lemma ViewIsValid(ctx: Context, v: Dag, u: Dag)
    requires ValidDag(ctx, u) && ViewOf(v, u)
    ensures ValidDag(ctx, v)
  {
    forall r | r in v ensures ValidEntry(ctx, v, r) {
      assert ValidEntry(ctx, u, r);
    }
  }

  /** r is in the causal history of `from`, `from` included. */
  ghost predicate Reaches(d: Dag, from: BlockRef, r: BlockRef)
    requires Causal(d) && from in d
    decreases from.round
  {
    assert CausalEntry(d, from);
    from == r || exists i :: 0 <= i < |d[from].ancestors| && Reaches(d, d[from].ancestors[i], r)
  }

  lemma {:induction false} ReachesInView(v: Dag, u: Dag, from: BlockRef, r: BlockRef)
    requires Causal(u) && ViewOf(v, u) && from in v
    ensures Reaches(v, from, r) <==> Reaches(u, from, r)
    ensures Reaches(u, from, r) ==> r in v
    decreases from.round
  {
    assert CausalEntry(v, from) && CausalEntry(u, from);
    forall i | 0 <= i < |v[from].ancestors|
      ensures Reaches(v, v[from].ancestors[i], r) <==> Reaches(u, v[from].ancestors[i], r)
      ensures Reaches(u, v[from].ancestors[i], r) ==> r in v
    {
      ReachesInView(v, u, v[from].ancestors[i], r);
    }
  }

  lemma {:induction false} ReachesDown(d: Dag, from: BlockRef, r: BlockRef)
    requires Causal(d) && from in d && Reaches(d, from, r)
    ensures r in d && r.round <= from.round
    ensures r.round == from.round ==> r == from
    decreases from.round
  {
    assert CausalEntry(d, from);
    if from != r {
      var i :| 0 <= i < |d[from].ancestors| && Reaches(d, d[from].ancestors[i], r);
      ReachesDown(d, d[from].ancestors[i], r);
    }
  }

  lemma {:induction false} ReachesTransitive(d: Dag, x: BlockRef, y: BlockRef, z: BlockRef)
    requires Causal(d) && x in d && Reaches(d, x, y)
    requires y in d && Reaches(d, y, z)
    ensures Reaches(d, x, z)
    decreases x.round
  {
    assert CausalEntry(d, x);
    if x != y {
      var i :| 0 <= i < |d[x].ancestors| && Reaches(d, d[x].ancestors[i], y);
      ReachesTransitive(d, d[x].ancestors[i], y, z);
    }
  }

  /** Authors of the blocks of one round in the history of `from`. */
  ghost function HistoryAuthors(d: Dag, from: BlockRef, round: nat): set<nat>
    requires Causal(d) && from in d
  {
    set r | r in d && r.round == round && Reaches(d, from, r) :: r.author
  }

  /** Every verified block has a quorum of distinct authors in its history at every lower round. */
  lemma {:induction false} HistoryHasQuorums(ctx: Context, d: Dag, from: BlockRef, round: nat)
    requires ValidDag(ctx, d) && from in d && round < from.round
    ensures ctx.committee.IsQuorum(HistoryAuthors(d, from, round))
    decreases from.round
  {
    var b := d[from];
    assert CausalEntry(d, from) && ValidEntry(ctx, d, from);
    if round + 1 == from.round {
      forall a | a in b.ParentAuthors() ensures a in HistoryAuthors(d, from, round) {
        var i :| 0 <= i < |b.ancestors| && b.ancestors[i].round + 1 == b.round && b.ancestors[i].author == a;
        assert Reaches(d, b.ancestors[i], b.ancestors[i]);
        assert Reaches(d, from, b.ancestors[i]);
      }
      StakeMonotone(ctx.committee, b.ParentAuthors(), HistoryAuthors(d, from, round));
    } else {
      var a := QuorumNotEmpty(ctx.committee, b.ParentAuthors());
      var i :| 0 <= i < |b.ancestors| && b.ancestors[i].round + 1 == b.round && b.ancestors[i].author == a;
      var p := b.ancestors[i];
      HistoryHasQuorums(ctx, d, p, round);
      forall x | x in HistoryAuthors(d, p, round) ensures x in HistoryAuthors(d, from, round) {
        var r :| r in d && r.round == round && Reaches(d, p, r) && r.author == x;
        assert Reaches(d, from, r);
      }
      StakeMonotone(ctx.committee, HistoryAuthors(d, p, round), HistoryAuthors(d, from, round));
    }
  }

  /** What the fault model grants: faulty authorities hold less than the validity threshold.
      A correct author makes at most one block per round and always links first to the last
      block it made before. */
  ghost predicate BftUniverse(ctx: Context, u: Dag, byzantine: set<nat>) {
    && ValidDag(ctx, u)
    && !ctx.committee.ReachedValidity(ctx.committee.StakeOf(byzantine))
    && forall r, s :: r in u && s in u && r.author == s.author && r.author !in byzantine && r.round <= s.round
         ==> FollowsOwn(u, r, s)
  }

  /** s, made no earlier than r by the same author, is r itself or links first to r or later. */
  ghost predicate FollowsOwn(u: Dag, r: BlockRef, s: BlockRef)
    requires s in u
  {
    if r.round == s.round then r == s else |u[s].ancestors| > 0 && r.round <= u[s].ancestors[0].round
  }

  /** Following first ancestors from `later` leads through blocks of one author to `earlier`. */
  ghost predicate OwnReaches(d: Dag, later: BlockRef, earlier: BlockRef)
    requires Causal(d) && later in d
    decreases later.round
  {
    assert CausalEntry(d, later);
    || later == earlier
    || (&& |d[later].ancestors| > 0
        && d[later].ancestors[0].author == later.author
        && OwnReaches(d, d[later].ancestors[0], earlier))
  }

  /** The blocks of one author form a chain, one per round. */
  ghost predicate OwnChain(d: Dag, own: nat) {
    forall r, s :: r in d && s in d && r.author == own && s.author == own && r.round <= s.round ==> FollowsOwn(d, r, s)
  }

  lemma {:induction false} ChainReaches(ctx: Context, d: Dag, r: BlockRef, s: BlockRef)
    requires ValidDag(ctx, d) && r in d && s in d && r.author == s.author && OwnChain(d, s.author) && r.round <= s.round
    ensures OwnReaches(d, s, r)
    decreases s.round
  {
    assert FollowsOwn(d, r, s);
    assert CausalEntry(d, s) && ValidEntry(ctx, d, s);
    if r.round < s.round { ChainReaches(ctx, d, r, d[s].ancestors[0]); }
  }

  /** The first blocks of all authorities are there. */
  ghost predicate HasGenesis(ctx: Context, d: Dag) {
    && ctx.genesis <= d.Keys
    && forall a :: 0 <= a < ctx.committee.Size() ==> HasGenesisOf(ctx, a)
  }

  ghost predicate HasGenesisOf(ctx: Context, a: nat) {
    exists g :: g in ctx.genesis && g.author == a
  }

  /** The blocks of a correct author form a single chain of first ancestors. */
  lemma HonestChain(ctx: Context, u: Dag, byzantine: set<nat>, r: BlockRef, s: BlockRef)
    requires BftUniverse(ctx, u, byzantine)
    requires r in u && s in u && r.author == s.author && r.author !in byzantine && r.round <= s.round
    ensures OwnReaches(u, s, r)
  {
    ChainReaches(ctx, u, r, s);
  }
}
