/** What the block manager keeps track of, as mathematics: which delivered blocks are in the DAG,
    which are suspended and on what, and what releasing one block sets free. */
module BlockTracking {
  import opened Blocks
  import opened Dags

  /** A verified block together with its reference. */
  datatype VerifiedBlock = VerifiedBlock(ref: BlockRef, block: Block)

  datatype SuspendedBlock = SuspendedBlock(block: VerifiedBlock, missing: set<BlockRef>)

  type Suspensions = map<BlockRef, SuspendedBlock>
  type Waiters = map<BlockRef, set<BlockRef>>

  /** All blocks that exist, whether or not their ancestors do: a reference names one block, and
      ancestors come from lower rounds. */
  ghost predicate Universe(u: Dag) {
    forall r :: r in u ==> u[r].round == r.round && forall a :: a in Parents(u[r]) ==> a.round < r.round
  }

  ghost predicate Known(u: Dag, b: VerifiedBlock) {
    b.ref in u && u[b.ref] == b.block
  }

  /** Part of the universe, causally closed, with timestamps that never run backwards. */
  ghost predicate AcceptedDag(u: Dag, dag: Dag) {
    forall r :: r in dag ==> AcceptedEntry(u, dag, r)
  }

  ghost predicate AcceptedEntry(u: Dag, dag: Dag, r: BlockRef)
    requires r in dag
  {
    && r in u && dag[r] == u[r]
    && forall a :: a in Parents(dag[r]) ==> a in dag && dag[a].timestampMs <= dag[r].timestampMs
  }

  // ---------------------------------------------------------------- what must be accepted

  /** r was there initially, or it was delivered, is no earlier than any ancestor, and the same
      holds of its whole causal history. */
  ghost predicate Complete(u: Dag, init: set<BlockRef>, delivered: set<BlockRef>, r: BlockRef)
    requires Universe(u)
    decreases r.round
  {
    || r in init
    || (&& r in delivered && r in u
        && forall a :: a in Parents(u[r]) ==>
             a in u && u[a].timestampMs <= u[r].timestampMs && Complete(u, init, delivered, a))
  }

  /** No delivery whatsoever makes r complete. */
  ghost predicate Hopeless(u: Dag, init: set<BlockRef>, r: BlockRef)
    requires Universe(u)
  {
    forall delivered :: !Complete(u, init, delivered, r)
  }

  /** A late timestamp, or a hopeless ancestor, makes a block hopeless. */
  lemma HopelessBecause(u: Dag, init: set<BlockRef>, r: BlockRef, a: BlockRef)
    requires Universe(u) && r in u && r !in init && a in Parents(u[r])
    requires Hopeless(u, init, a) || (a in u && u[a].timestampMs > u[r].timestampMs)
    ensures Hopeless(u, init, r)
  {
    forall delivered ensures !Complete(u, init, delivered, r) {
    }
  }

  // ---------------------------------------------------------------- the invariant

  /** The two maps describe one relation: r waits for a. Nothing is kept that is not needed. */
  ghost predicate Consistent(suspended: Suspensions, waiters: Waiters) {
    && (forall r :: r in suspended ==> suspended[r].missing != {})
    && (forall r, a :: r in suspended && a in suspended[r].missing ==> a in waiters && r in waiters[a])
    && (forall a, r :: a in waiters && r in waiters[a] ==> r in suspended && a in suspended[r].missing)
    && (forall a :: a in waiters ==> waiters[a] != {})
  }

  /** What a suspended block waits for is among its ancestors and not in the DAG; ancestors that
      are neither in the DAG nor waited for were rejected. */
  ghost predicate SuspendedEntry(u: Dag, dag: Dag, rejected: set<BlockRef>, r: BlockRef, s: SuspendedBlock) {
    && s.block == VerifiedBlock(r, s.block.block) && Known(u, s.block)
    && r !in dag
    && (forall a :: a in s.missing ==> a in Parents(s.block.block) && a !in dag)
    && (forall a :: a in Parents(s.block.block) ==> a in dag || a in s.missing || a in rejected)
  }

  ghost predicate SuspendedOk(u: Dag, dag: Dag, rejected: set<BlockRef>, suspended: Suspensions) {
    forall r :: r in suspended ==> SuspendedEntry(u, dag, rejected, r, suspended[r])
  }

  /** Everything delivered is in the DAG, suspended or was rejected, and nothing else is. */
  ghost predicate Accounted(dag: Dag, init: set<BlockRef>, suspended: Suspensions, rejected: set<BlockRef>, delivered: set<BlockRef>) {
    && init <= dag.Keys
    && delivered + init == dag.Keys + suspended.Keys + rejected + init
  }

  ghost predicate AllHopeless(u: Dag, init: set<BlockRef>, rejected: set<BlockRef>)
    requires Universe(u)
  {
    forall r :: r in rejected ==> Hopeless(u, init, r)
  }

  ghost predicate Invariant(u: Dag, init: set<BlockRef>, dag: Dag, suspended: Suspensions, waiters: Waiters,
                            missing: set<BlockRef>, rejected: set<BlockRef>, delivered: set<BlockRef>)
  {
    && Universe(u)
    && AcceptedDag(u, dag)
    && Consistent(suspended, waiters)
    && SuspendedOk(u, dag, rejected, suspended)
    && missing == waiters.Keys - suspended.Keys
    && Accounted(dag, init, suspended, rejected, delivered)
    && AllHopeless(u, init, rejected)
  }

  /** Delivery order does not matter: in every state, whatever has been rejected on the way, the
      DAG holds exactly the complete blocks. */
  lemma {:induction false} DagIsComplete(u: Dag, init: set<BlockRef>, dag: Dag, suspended: Suspensions, waiters: Waiters,
                                         missing: set<BlockRef>, rejected: set<BlockRef>, delivered: set<BlockRef>, r: BlockRef)
    requires Invariant(u, init, dag, suspended, waiters, missing, rejected, delivered)
    ensures r in dag <==> Complete(u, init, delivered, r)
    decreases r.round
  {
    if r in u && r !in init {
      forall a | a in Parents(u[r]) ensures a in dag <==> Complete(u, init, delivered, a) {
        DagIsComplete(u, init, dag, suspended, waiters, missing, rejected, delivered, a);
      }
      if r in dag {
        assert AcceptedEntry(u, dag, r);
        forall a | a in Parents(u[r]) ensures a in u && u[a].timestampMs <= u[r].timestampMs {
          assert AcceptedEntry(u, dag, a);
        }
      } else if r in suspended {
        assert SuspendedEntry(u, dag, rejected, r, suspended[r]);
        var a :| a in suspended[r].missing;
        assert !Complete(u, init, delivered, a);
      }
    }
  }

  /** Without rejections the whole state is a function of what was there and what was delivered. */
  lemma StateIsDetermined(u: Dag, init: set<BlockRef>, delivered: set<BlockRef>,
                          dag: Dag, suspended: Suspensions, waiters: Waiters, missing: set<BlockRef>,
                          dag': Dag, suspended': Suspensions, waiters': Waiters, missing': set<BlockRef>)
    requires Invariant(u, init, dag, suspended, waiters, missing, {}, delivered)
    requires Invariant(u, init, dag', suspended', waiters', missing', {}, delivered)
    ensures dag == dag' && suspended == suspended' && waiters == waiters' && missing == missing'
  {
    forall r ensures r in dag <==> r in dag' {
      DagIsComplete(u, init, dag, suspended, waiters, missing, {}, delivered, r);
      DagIsComplete(u, init, dag', suspended', waiters', missing', {}, delivered, r);
    }
    forall r | r in dag ensures dag[r] == dag'[r] {
      assert AcceptedEntry(u, dag, r) && AcceptedEntry(u, dag', r);
    }
    assert dag == dag';
    SuspensionsDetermined(u, init, delivered, dag, suspended, suspended');
    WaitersDetermined(suspended, waiters, waiters');
  }

  lemma SuspensionsDetermined(u: Dag, init: set<BlockRef>, delivered: set<BlockRef>, dag: Dag,
                              suspended: Suspensions, suspended': Suspensions)
    requires SuspendedOk(u, dag, {}, suspended) && SuspendedOk(u, dag, {}, suspended')
    requires Accounted(dag, init, suspended, {}, delivered) && Accounted(dag, init, suspended', {}, delivered)
    ensures suspended == suspended'
  {
    forall r ensures r in suspended <==> r in suspended' {
      assert r in suspended ==> SuspendedEntry(u, dag, {}, r, suspended[r]);
      assert r in suspended' ==> SuspendedEntry(u, dag, {}, r, suspended'[r]);
      assert r in delivered + init <==> r in dag.Keys + suspended.Keys + {} + init;
      assert r in delivered + init <==> r in dag.Keys + suspended'.Keys + {} + init;
    }
    forall r | r in suspended ensures suspended[r] == suspended'[r] {
      assert SuspendedEntry(u, dag, {}, r, suspended[r]) && SuspendedEntry(u, dag, {}, r, suspended'[r]);
      assert suspended[r].missing == suspended'[r].missing;
    }
  }

  lemma WaitersDetermined(suspended: Suspensions, waiters: Waiters, waiters': Waiters)
    requires Consistent(suspended, waiters) && Consistent(suspended, waiters')
    ensures waiters == waiters'
  {
    forall a | a in waiters ensures a in waiters' && waiters[a] <= waiters'[a] {
      WaitersIncluded(suspended, waiters, waiters', a);
    }
    forall a | a in waiters' ensures a in waiters && waiters'[a] <= waiters[a] {
      WaitersIncluded(suspended, waiters', waiters, a);
    }
    assert waiters.Keys == waiters'.Keys;
    assert forall a :: a in waiters ==> waiters[a] == waiters'[a];
  }

  lemma WaitersIncluded(suspended: Suspensions, waiters: Waiters, waiters': Waiters, a: BlockRef)
    requires Consistent(suspended, waiters) && Consistent(suspended, waiters') && a in waiters
    ensures a in waiters' && waiters[a] <= waiters'[a]
  {
    forall r | r in waiters[a] ensures a in waiters' && r in waiters'[a] {
      assert r in suspended && a in suspended[r].missing;
    }
    var r :| r in waiters[a];
  }

  // ---------------------------------------------------------------- releasing

  /** The suspensions once everything in `done` is no longer waited for. */
  ghost function Released(suspended: Suspensions, done: set<BlockRef>): Suspensions {
    map r | r in suspended && !(suspended[r].missing <= done) :: suspended[r].(missing := suspended[r].missing - done)
  }

  /** The blocks that wait for nothing outside `done`. */
  ghost function Freed(suspended: Suspensions, done: set<BlockRef>): set<BlockRef> {
    set r | r in suspended && suspended[r].missing <= done
  }

  lemma ReleaseStep(suspended: Suspensions, done: set<BlockRef>, q: BlockRef)
    requires forall r :: r in suspended ==> suspended[r].missing != {}
    ensures Released(suspended, done + {q}) == Released(Released(suspended, done), {q})
    ensures Freed(suspended, done + {q}) == Freed(suspended, done) + Freed(Released(suspended, done), {q})
  {
    var now := Released(suspended, done);
    forall r | r in suspended && r in now
      ensures now[r].missing <= {q} <==> suspended[r].missing <= done + {q}
      ensures now[r].missing - {q} == suspended[r].missing - (done + {q})
    {
      assert now[r].missing == suspended[r].missing - done;
    }
  }

  lemma ReleaseKeepsConsistent(suspended: Suspensions, waiters: Waiters, q: BlockRef)
    requires Consistent(suspended, waiters)
    ensures Consistent(Released(suspended, {q}), waiters - {q})
  {
    var now := Released(suspended, {q});
    forall r | r in now ensures now[r].missing != {} {
    }
    forall a, r | a in waiters - {q} && r in (waiters - {q})[a] ensures r in now && a in now[r].missing {
      assert a in waiters && r in waiters[a] && a != q;
    }
  }

  // ---------------------------------------------------------------- judging released blocks

  /** The position of the first ancestor that is neither in the DAG nor accepted now is `i`. */
  ghost predicate FirstUnfound(b: Block, found: set<BlockRef>, i: nat) {
    && i < |b.ancestors| && b.ancestors[i] !in found
    && forall j :: 0 <= j < i ==> b.ancestors[j] in found
  }

  /** That first ancestor is not among the rejected ones. */
  ghost predicate HasLost(b: Block, found: set<BlockRef>, reject: set<BlockRef>) {
    exists i: nat :: FirstUnfound(b, found, i) && b.ancestors[i] !in reject
  }

  lemma FirstUnfoundDecides(b: Block, found: set<BlockRef>, reject: set<BlockRef>, i: nat)
    requires FirstUnfound(b, found, i)
    ensures HasLost(b, found, reject) <==> b.ancestors[i] !in reject
  {
    if j: nat :| FirstUnfound(b, found, j) && b.ancestors[j] !in reject { assert i == j; }
  }

  /** What is wrong with a rejected block: a rejected or a later ancestor. */
  ghost predicate HasBadAncestor(b: Block, known: Dag, reject: set<BlockRef>) {
    exists a :: a in Parents(b) && (a in reject || (a in known && known[a].timestampMs > b.timestampMs))
  }

  /** A block accepted on top of the DAG is not hopeless. */
  lemma {:induction false} AcceptedIsNotHopeless(u: Dag, init: set<BlockRef>, dag: Dag, r: BlockRef)
    requires Universe(u) && AcceptedDag(u, dag) && r in dag
    ensures Complete(u, init, dag.Keys, r) && !Hopeless(u, init, r)
    decreases r.round
  {
    assert AcceptedEntry(u, dag, r);
    forall a | a in Parents(u[r]) ensures a in u && u[a].timestampMs <= u[r].timestampMs && Complete(u, init, dag.Keys, a) {
      AcceptedIsNotHopeless(u, init, dag, a);
      assert AcceptedEntry(u, dag, a);
    }
  }

  lemma AcceptedExtends(u: Dag, dag: Dag, accept: Dag, r: BlockRef)
    requires AcceptedDag(u, dag + accept) && r in u && r !in dag && r !in accept
    requires forall a :: a in Parents(u[r]) ==> a in dag + accept && (dag + accept)[a].timestampMs <= u[r].timestampMs
    ensures AcceptedDag(u, dag + accept[r := u[r]])
  {
    var now, next := dag + accept, dag + accept[r := u[r]];
    assert next == now[r := u[r]];
    forall x | x in next ensures AcceptedEntry(u, next, x) {
      if x != r { assert AcceptedEntry(u, now, x); }
    }
  }
}
