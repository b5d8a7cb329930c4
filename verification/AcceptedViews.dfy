/** What the block manager accepts, in terms of the rest of the system: its DAG is a view that the
    commit rule and the proposer can work on, and a proposal of one's own is accepted at once. */
module AcceptedViews {
  import opened Blocks
  import opened BlockVerifier
  import opened Dags
  import opened BlockTracking
  import opened BlockManager
  import opened Proposer

  /** Every block of the universe passes verification or is a genesis block. */
  ghost predicate EntryVerified(ctx: Context, u: Dag, r: BlockRef)
    requires r in u
  {
    && u[r].author == r.author
    && if r.round == GENESIS_ROUND then r in ctx.genesis && u[r].ancestors == [] else ValidBlock(ctx, u[r])
  }

  ghost predicate OnlyVerified(ctx: Context, u: Dag, refs: set<BlockRef>) {
    forall r :: r in refs && r in u ==> EntryVerified(ctx, u, r)
  }

  /** A manager that started with verified blocks, and is given verified blocks only, holds a
      causally closed DAG of verified blocks. */
  lemma ManagerDagIsValid(ctx: Context, m: BlockManager)
    requires ctx.WellFormed() && m.Valid() && OnlyVerified(ctx, m.universe, m.init + m.delivered)
    ensures ValidDag(ctx, m.dag)
  {
    var u, d := m.universe, m.dag;
    forall r | r in d ensures CausalEntry(d, r) && ValidEntry(ctx, d, r) {
      assert AcceptedEntry(u, d, r);
      assert r in m.init + m.delivered;
      assert EntryVerified(ctx, u, r);
      forall i | 0 <= i < |d[r].ancestors| ensures d[r].ancestors[i] in d && d[r].ancestors[i].round < r.round {
        assert d[r].ancestors[i] in Parents(d[r]);
      }
    }
  }

  lemma UnionIsValid(ctx: Context, d: Dag, e: Dag)
    requires ValidDag(ctx, d) && ValidDag(ctx, e) && forall r :: r in d && r in e ==> d[r] == e[r]
    ensures ValidDag(ctx, d + e) && ViewOf(d, d + e) && ViewOf(e, d + e)
  {
    hide ValidBlock;
    var u := d + e;
    forall r | r in u ensures CausalEntry(u, r) && ValidEntry(ctx, u, r) {
      if r in e {
        assert CausalEntry(e, r) && ValidEntry(ctx, e, r);
      } else {
        assert CausalEntry(d, r) && ValidEntry(ctx, d, r);
      }
    }
  }

  /** The DAGs of two managers over one universe are views of a common valid DAG. */
  lemma ManagersShareViews(ctx: Context, a: BlockManager, b: BlockManager)
    requires ctx.WellFormed() && a.Valid() && b.Valid() && a.universe == b.universe
    requires OnlyVerified(ctx, a.universe, a.init + a.delivered) && OnlyVerified(ctx, b.universe, b.init + b.delivered)
    ensures var u := a.dag + b.dag; ValidDag(ctx, u) && ViewOf(a.dag, u) && ViewOf(b.dag, u)
  {
    hide ValidDag;
    hide ViewOf;
    ManagerDagIsValid(ctx, a);
    ManagerDagIsValid(ctx, b);
    forall r | r in a.dag && r in b.dag ensures a.dag[r] == b.dag[r] {
      assert AcceptedEntry(a.universe, a.dag, r) && AcceptedEntry(b.universe, b.dag, r);
    }
    UnionIsValid(ctx, a.dag, b.dag);
  }

  // ---------------------------------------------------------------- the own proposal

  /** When nobody waits for a block, nothing else becomes complete with it. */
  lemma {:induction false} OnlyOneMore(u: Dag, init: set<BlockRef>, dag: Dag, suspended: Suspensions, waiters: Waiters,
                                       missing: set<BlockRef>, rejected: set<BlockRef>, delivered: set<BlockRef>, b: BlockRef, r: BlockRef)
    requires Invariant(u, init, dag, suspended, waiters, missing, rejected, delivered) && NobodyWaits(suspended, b)
    requires Complete(u, init, delivered + {b}, r) && r != b
    ensures r in dag
    decreases r.round
  {
    if r !in init && r !in dag {
      assert r !in rejected by { assert r in rejected ==> Hopeless(u, init, r); }
      assert SuspendedEntry(u, dag, rejected, r, suspended[r]);
      var m :| m in suspended[r].missing;
      OnlyOneMore(u, init, dag, suspended, waiters, missing, rejected, delivered, b, m);
    }
  }

  lemma NoPanic(u: Dag, init: set<BlockRef>, dag: Dag, suspended: Suspensions, waiters: Waiters,
                missing: set<BlockRef>, rejected: set<BlockRef>, delivered: set<BlockRef>, b: VerifiedBlock)
    requires Invariant(u, init, dag, suspended, waiters, missing, rejected, delivered) && NobodyWaits(suspended, b.ref)
    ensures !PassPanics(u, init, dag, suspended, b)
  {
    hide Unlocked;
    hide LosesAncestor;
    Unpack(u, init, dag, suspended, waiters, missing, rejected, delivered);
    forall r ensures !Unlocked(suspended, b.ref, r) { NothingUnlocked(suspended, b.ref, r); }
  }

  ghost predicate Ready(dag: Dag, b: VerifiedBlock) {
    forall a :: a in Parents(b.block) ==> a in dag && dag[a].timestampMs <= b.block.timestampMs
  }

  lemma GrowsByOne(u: Dag, init: set<BlockRef>, dag: Dag, suspended: Suspensions, waiters: Waiters,
                   missing: set<BlockRef>, rejected: set<BlockRef>, delivered: set<BlockRef>, b: VerifiedBlock,
                   dag': Dag, suspended': Suspensions, waiters': Waiters, missing': set<BlockRef>, rejected': set<BlockRef>,
                   accepted: seq<VerifiedBlock>)
    requires Invariant(u, init, dag, suspended, waiters, missing, rejected, delivered) && NobodyWaits(suspended, b.ref)
    requires Invariant(u, init, dag', suspended', waiters', missing', rejected', delivered + {b.ref})
    requires Known(u, b) && b.ref !in dag && Ready(dag, b) && Extends(dag, accepted, dag')
    ensures accepted == [b] && dag' == dag[b.ref := b.block]
  {
    hide Invariant;
    hide Complete;
    IsComplete(u, init, dag, dag', suspended', waiters', missing', rejected', delivered, b);
    forall r | r in dag' && r != b.ref ensures r in dag {
      DagIsComplete(u, init, dag', suspended', waiters', missing', rejected', delivered + {b.ref}, r);
      UniverseOf(u, init, dag, suspended, waiters, missing, rejected, delivered);
      OnlyOneMore(u, init, dag, suspended, waiters, missing, rejected, delivered, b.ref, r);
    }
    OneListed(dag, accepted, dag', b.ref);
  }

  lemma UniverseOf(u: Dag, init: set<BlockRef>, dag: Dag, suspended: Suspensions, waiters: Waiters,
                   missing: set<BlockRef>, rejected: set<BlockRef>, delivered: set<BlockRef>)
    requires Invariant(u, init, dag, suspended, waiters, missing, rejected, delivered)
    ensures Universe(u)
  {
  }

  lemma IsComplete(u: Dag, init: set<BlockRef>, dag: Dag, dag': Dag, suspended': Suspensions, waiters': Waiters,
                   missing': set<BlockRef>, rejected': set<BlockRef>, delivered: set<BlockRef>, b: VerifiedBlock)
    requires Invariant(u, init, dag', suspended', waiters', missing', rejected', delivered + {b.ref})
    requires Known(u, b) && Ready(dag, b) && forall r :: r in dag ==> r in dag' && dag'[r] == dag[r]
    ensures b.ref in dag' && dag'[b.ref] == b.block
  {
    hide Consistent;
    hide SuspendedOk;
    hide Accounted;
    hide AllHopeless;
    forall a | a in Parents(u[b.ref])
      ensures a in u && u[a].timestampMs <= u[b.ref].timestampMs && Complete(u, init, delivered + {b.ref}, a)
    {
      assert AcceptedEntry(u, dag', a);
      DagIsComplete(u, init, dag', suspended', waiters', missing', rejected', delivered + {b.ref}, a);
    }
    DagIsComplete(u, init, dag', suspended', waiters', missing', rejected', delivered + {b.ref}, b.ref);
    assert AcceptedEntry(u, dag', b.ref);
  }

  lemma OneListed(dag: Dag, accepted: seq<VerifiedBlock>, dag': Dag, r: BlockRef)
    requires Extends(dag, accepted, dag') && r in dag' && r !in dag && forall x :: x in dag' && x != r ==> x in dag
    ensures accepted == [VerifiedBlock(r, dag'[r])] && dag' == dag[r := dag'[r]]
  {
    forall i | 0 <= i < |accepted| ensures accepted[i] == VerifiedBlock(r, dag'[r]) {
      assert accepted[i] in accepted && accepted[i].ref in Refs(accepted);
    }
    assert r in Refs(accepted);
    assert accepted != [];
    assert |accepted| > 1 ==> accepted[0].ref != accepted[1].ref;
  }

  lemma NothingMissing(u: Dag, init: set<BlockRef>, dag': Dag, suspended': Suspensions, waiters': Waiters,
                       missing': set<BlockRef>, rejected': set<BlockRef>, delivered': set<BlockRef>, b: VerifiedBlock, missing: set<BlockRef>)
    requires Invariant(u, init, dag', suspended', waiters', missing', rejected', delivered') && Known(u, b)
    requires Parents(b.block) <= dag'.Keys && missing <= AllParents([b]) && missing - {b.ref} <= missing'
    ensures missing == {}
  {
    forall a | a in missing ensures a !in missing' && a != b.ref {
      assert a in Parents([b][0].block);
      AcceptedIsNotAwaited(u, dag', rejected', suspended', waiters', a);
    }
  }

  /** The proposal, made on top of the manager's DAG and never sent, is accepted alone and at once:
      both assertions after accepting it hold. */
  method AcceptProposal(m: BlockManager, ghost ctx: Context, ghost own: nat, ghost last: BlockRef, ghost included: map<nat, BlockRef>,
                        ref: BlockRef, b: Block) returns (accepted: seq<VerifiedBlock>, missing: set<BlockRef>)
    requires m.Valid() && Known(m.universe, VerifiedBlock(ref, b))
    requires Proper(ctx, own, m.dag, last, included, b.round, b.timestampMs, ref, b)
    requires ref !in m.suspended && NobodyWaits(m.suspended, ref)
    modifies m
    ensures m.Valid() && accepted == [VerifiedBlock(ref, b)] && missing == {}
    ensures m.dag == old(m.dag)[ref := b]
  {
    hide Invariant;
    hide Extends;
    hide NobodyWaits;
    hide AllParents;
    hide PassPanics;
    ProposalIsReady(ctx, own, m.dag, last, included, ref, b);
    hide Proper;
    var v := VerifiedBlock(ref, b);
    NoPanic(m.universe, m.init, m.dag, m.suspended, m.missingAncestors, m.missingBlocks, m.rejected, m.delivered, v);
    var panicked;
    ghost var sorted, passes, states;
    panicked, accepted, missing, sorted, passes, states := m.TryAcceptBlocks([v]);
    SortKeepsBlocks([v], sorted);
    assert Refs([v]) == {ref} by { assert [v][0].ref in Refs([v]); }
    GrowsByOne(m.universe, m.init, old(m.dag), old(m.suspended), old(m.missingAncestors), old(m.missingBlocks), old(m.rejected),
               old(m.delivered), v, m.dag, m.suspended, m.missingAncestors, m.missingBlocks, m.rejected, accepted);
    NothingMissing(m.universe, m.init, m.dag, m.suspended, m.missingAncestors, m.missingBlocks, m.rejected, m.delivered, v, missing);
  }

  lemma ProposalIsReady(ctx: Context, own: nat, d: Dag, last: BlockRef, included: map<nat, BlockRef>, ref: BlockRef, b: Block)
    requires Proper(ctx, own, d, last, included, b.round, b.timestampMs, ref, b)
    ensures ref !in d && Ready(d, VerifiedBlock(ref, b)) && Parents(b) <= d.Keys
  {
  }
}
