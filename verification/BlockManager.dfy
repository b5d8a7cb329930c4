/** Suspends incoming blocks until their causal history is present; returns newly connected blocks. */
module BlockManager {
  import opened Blocks
  import BlockVerifier
  import opened Dags
  import opened BlockTracking
  import opened Orders
  import StableSort

  datatype TryAcceptResult =
    | Accepted(block: VerifiedBlock)
    | Suspended(ancestorsToFetch: set<BlockRef>)
    | Processed

  /** `waiters` with r waiting for all of `missing` as well. */
  ghost function AddWaiter(waiters: Waiters, missing: set<BlockRef>, r: BlockRef): Waiters {
    map a | a in waiters.Keys + missing ::
      (if a in waiters then waiters[a] else {}) + (if a in missing then {r} else {})
  }

  ghost function Refs(blocks: seq<VerifiedBlock>): set<BlockRef> {
    set i | 0 <= i < |blocks| :: blocks[i].ref
  }

  ghost predicate Distinct(blocks: seq<VerifiedBlock>) {
    forall i, j :: 0 <= i < j < |blocks| ==> blocks[i].ref != blocks[j].ref
  }

  lemma RefsConcat(xs: seq<VerifiedBlock>, ys: seq<VerifiedBlock>)
    ensures Refs(xs + ys) == Refs(xs) + Refs(ys)
  {
    forall r | r in Refs(xs) ensures r in Refs(xs + ys) {
      var i :| 0 <= i < |xs| && xs[i].ref == r;
      assert (xs + ys)[i] == xs[i];
    }
    forall r | r in Refs(ys) ensures r in Refs(xs + ys) {
      var i :| 0 <= i < |ys| && ys[i].ref == r;
      assert (xs + ys)[|xs| + i] == ys[i];
    }
  }

  lemma DistinctConcat(xs: seq<VerifiedBlock>, ys: seq<VerifiedBlock>)
    requires Distinct(xs) && Distinct(ys) && Refs(xs) !! Refs(ys)
    ensures Distinct(xs + ys)
  {
    forall i, j | 0 <= i < j < |xs + ys| ensures (xs + ys)[i].ref != (xs + ys)[j].ref {
      if i < |xs| <= j {
        assert xs[i].ref in Refs(xs) && ys[j - |xs|].ref in Refs(ys);
      }
    }
  }

  /** The freed blocks wait for nothing but earlier ones: each one's missing ancestors are `first`
      or come before it. */
  ghost predicate CausalOrder(suspended: Suspensions, first: BlockRef, freed: seq<VerifiedBlock>) {
    forall k :: 0 <= k < |freed| ==> WaitsForEarlier(suspended, first, freed, k)
  }

  ghost predicate WaitsForEarlier(suspended: Suspensions, first: BlockRef, freed: seq<VerifiedBlock>, k: nat)
    requires k < |freed|
  {
    && freed[k].ref in suspended && suspended[freed[k].ref].block == freed[k]
    && suspended[freed[k].ref].missing <= {first} + Refs(freed[..k])
  }

  lemma CausalOrderExtends(suspended: Suspensions, first: BlockRef, freed: seq<VerifiedBlock>, more: seq<VerifiedBlock>)
    requires CausalOrder(suspended, first, freed)
    requires forall i :: 0 <= i < |more| ==>
               && more[i].ref in suspended && suspended[more[i].ref].block == more[i]
               && suspended[more[i].ref].missing <= {first} + Refs(freed)
    ensures CausalOrder(suspended, first, freed + more)
  {
    var all := freed + more;
    forall k | 0 <= k < |all| ensures WaitsForEarlier(suspended, first, all, k) {
      if k < |freed| {
        assert WaitsForEarlier(suspended, first, freed, k) && all[..k] == freed[..k];
      } else {
        assert all[..k] == freed + more[..k - |freed|];
        RefsConcat(freed, more[..k - |freed|]);
      }
    }
  }

  class BlockManager {
    ghost const universe: Dag
    ghost const init: set<BlockRef>
    var dag: Dag
    var suspended: Suspensions
    var missingAncestors: Waiters
    var missingBlocks: set<BlockRef>
    ghost var rejected: set<BlockRef>
    ghost var delivered: set<BlockRef>

    ghost predicate Valid()
      reads this
    {
      Invariant(universe, init, dag, suspended, missingAncestors, missingBlocks, rejected, delivered)
    }

    constructor (dag: Dag, ghost universe: Dag)
      requires Universe(universe) && AcceptedDag(universe, dag)
      ensures Valid() && this.dag == dag && init == dag.Keys && this.universe == universe
      ensures delivered == {} && rejected == {} && suspended == map[]
    {
      this.dag, this.universe, init := dag, universe, dag.Keys;
      suspended, missingAncestors, missingBlocks := map[], map[], {};
      rejected, delivered := {}, {};
    }

    /** Suspends a new block that misses ancestors; otherwise hands it back as ready. */
    method TryAcceptOneBlock(b: VerifiedBlock) returns (r: TryAcceptResult)
      requires Valid() && Known(universe, b)
      modifies this`suspended, this`missingAncestors, this`missingBlocks, this`delivered
      ensures r.Processed? <==> b.ref in old(suspended) || b.ref in dag
      ensures r.Accepted? <==> !r.Processed? && Parents(b.block) <= dag.Keys
      ensures r.Processed? ==> Valid() && suspended == old(suspended) && delivered == old(delivered) + {b.ref}
                               && missingBlocks == old(missingBlocks) && b.ref !in missingBlocks
      ensures r.Suspended? ==>
                && Valid() && delivered == old(delivered) + {b.ref}
                && suspended == old(suspended)[b.ref := SuspendedBlock(b, Parents(b.block) - dag.Keys)]
                && r.ancestorsToFetch == Parents(b.block) - dag.Keys - old(suspended.Keys)
                && missingBlocks == old(missingBlocks) + r.ancestorsToFetch - {b.ref}
      ensures r.Accepted? ==>
                && r.block == b && suspended == old(suspended) && missingAncestors == old(missingAncestors)
                && missingBlocks == old(missingBlocks) - {b.ref} && delivered == old(delivered)
    {
      hide Invariant;
      hide AddWaiter;
      hide MissingAmong;
      if b.ref in suspended || b.ref in dag {
        RedeliverKeepsInvariant(universe, init, dag, suspended, missingAncestors, missingBlocks, rejected, delivered, b.ref);
        delivered := delivered + {b.ref};
        return Processed;
      }
      var missing: set<BlockRef>, toFetch: set<BlockRef> := {}, {};
      var ancestors := b.block.ancestors;
      AddNoWaiter(missingAncestors, b.ref);
      MissingAmongSteps(ancestors, dag);
      for i := 0 to |ancestors|
        invariant suspended == old(suspended) && delivered == old(delivered)
        invariant missing == MissingAmong(ancestors, i, dag) && toFetch == missing - suspended.Keys
        invariant missingAncestors == AddWaiter(old(missingAncestors), missing, b.ref)
        invariant missingBlocks == old(missingBlocks) + toFetch
      {
        var a := ancestors[i];
        if a !in dag {
          AddWaiterStep(old(missingAncestors), missing, b.ref, a);
          var waiting := if a in missingAncestors then missingAncestors[a] else {};
          missingAncestors := missingAncestors[a := waiting + {b.ref}];
          missing := missing + {a};
          if a !in suspended {
            missingBlocks := missingBlocks + {a};
            toFetch := toFetch + {a};
          }
        }
      }
      MissingIsLacking(b.block, dag);
      missingBlocks := missingBlocks - {b.ref};
      if missing != {} {
        suspended := suspended[b.ref := SuspendedBlock(b, missing)];
        delivered := delivered + {b.ref};
        SuspendKeepsInvariant(universe, init, dag, old(suspended), old(missingAncestors), old(missingBlocks), rejected, old(delivered), b);
        return Suspended(toFetch);
      }
      return Accepted(b);
    }

    /** Drops one dependency of a suspended block; the block itself when nothing is left. The
        preconditions are what the source expects and asserts at run time. */
    method TryUnsuspendBlock(r: BlockRef, dependency: BlockRef) returns (freed: Option<VerifiedBlock>)
      requires r in suspended && dependency in suspended[r].missing
      modifies this`suspended
      ensures freed.Some? <==> old(suspended)[r].missing == {dependency}
      ensures freed.Some? ==> freed.value == old(suspended)[r].block && suspended == old(suspended) - {r}
      ensures freed.None? ==>
                suspended == old(suspended)[r := old(suspended)[r].(missing := old(suspended)[r].missing - {dependency})]
    {
      var s := suspended[r];
      var left := s.missing - {dependency};
      if left == {} {
        suspended := suspended - {r};
        return Some(s.block);
      }
      suspended := suspended[r := s.(missing := left)];
      return None;
    }

    /** Removes one accepted block from everybody's missing ancestors; the blocks that waited for
        nothing else. */
    method ReleaseChildren(q: BlockRef) returns (freed: seq<VerifiedBlock>)
      requires Consistent(suspended, missingAncestors) && Named(suspended)
      modifies this`suspended, this`missingAncestors
      ensures suspended == Released(old(suspended), {q}) && missingAncestors == old(missingAncestors) - {q}
      ensures Refs(freed) == Freed(old(suspended), {q}) && Distinct(freed) && FromMap(old(suspended), freed)
    {
      hide Released;
      hide Freed;
      hide PartlyReleased;
      hide PartlyFreed;
      hide Consistent;
      hide Refs;
      hide Distinct;
      hide FromMap;
      freed := [];
      NothingReleased(suspended, missingAncestors, q);
      if q in missingAncestors {
        var todo := missingAncestors[q];
        missingAncestors := missingAncestors - {q};
        ghost var done: set<BlockRef> := {};
        while todo != {}
          invariant todo + done == old(missingAncestors)[q] && todo !! done
          invariant missingAncestors == old(missingAncestors) - {q}
          invariant suspended == PartlyReleased(old(suspended), q, done)
          invariant Refs(freed) == PartlyFreed(old(suspended), q, done)
          invariant Distinct(freed) && FromMap(old(suspended), freed)
          decreases |todo|
        {
          var r :| r in todo;
          todo := todo - {r};
          PartialStep(old(suspended), old(missingAncestors), q, done, r);
          var block := TryUnsuspendBlock(r, q);
          if block.Some? {
            FreedSnoc(old(suspended), freed, block.value);
            freed := freed + [block.value];
          }
          done := done + {r};
        }
        AllReleased(old(suspended), old(missingAncestors), q);
      }
    }

    /** Everything that becomes ready once `b` is, in an order in which no block comes before one
        it waits for. `done` is b and all of them. */
    method TryUnsuspendChildren(b: VerifiedBlock) returns (unsuspended: seq<VerifiedBlock>, ghost done: set<BlockRef>)
      requires Consistent(suspended, missingAncestors) && Named(suspended) && b.ref !in suspended
      modifies this`suspended, this`missingAncestors
      ensures done == {b.ref} + Freed(old(suspended), done)
      ensures suspended == Released(old(suspended), done) && missingAncestors == old(missingAncestors) - done
      ensures Consistent(suspended, missingAncestors)
      ensures Refs(unsuspended) == Freed(old(suspended), done) && Distinct(unsuspended)
      ensures CausalOrder(old(suspended), b.ref, unsuspended)
    {
      hide Consistent;
      hide Released;
      hide Freed;
      unsuspended, done := [], {};
      var stack := [b];
      StartRelease(suspended, missingAncestors);
      assert Refs(stack) == {b.ref} by { assert stack[0].ref in Refs(stack); }
      while stack != []
        invariant suspended == Released(old(suspended), done) && missingAncestors == old(missingAncestors) - done
        invariant Consistent(suspended, missingAncestors) && Named(suspended)
        invariant Refs(unsuspended) == Freed(old(suspended), done) && Distinct(unsuspended)
        invariant CausalOrder(old(suspended), b.ref, unsuspended)
        invariant done <= {b.ref} + Refs(unsuspended)
        invariant Refs(stack) == {b.ref} + Refs(unsuspended) - done && Distinct(stack)
        decreases suspended.Keys, |stack|
      {
        var q := stack[|stack| - 1];
        var rest := stack[..|stack| - 1];
        PopRefs(stack);
        ghost var before, wait := suspended, missingAncestors;
        var freed := ReleaseChildren(q.ref);
        ReleaseKeepsConsistent(before, wait, q.ref);
        CascadeStep(old(suspended), old(missingAncestors), done, before, q.ref, b.ref, unsuspended, freed);
        RefsConcat(unsuspended, freed);
        RefsConcat(rest, freed);
        DistinctConcat(rest, freed);
        stack := rest + freed;
        unsuspended := unsuspended + freed;
        done := done + {q.ref};
      }
      CascadeEnd(b.ref, unsuspended, done);
    }

    /** Looks up the ancestors of a released block and checks it against them. */
    method Examine(b: VerifiedBlock, accept: Dag, reject: set<BlockRef>) returns (v: Finding)
      requires AcceptedDag(universe, dag + accept) && Known(universe, b) && accept.Keys !! dag.Keys
      ensures v.Lost? <==> HasLost(b.block, dag.Keys + accept.Keys, reject)
      ensures v.Fine? ==> forall a :: a in Parents(b.block) ==>
                a in dag + accept && (dag + accept)[a].timestampMs <= b.block.timestampMs
      ensures v.Bad? ==> HasBadAncestor(b.block, dag + accept, reject)
    {
      hide AcceptedDag;
      var ancestors := b.block.ancestors;
      var blocks: seq<Block> := [];
      ghost var known := dag + accept;
      for i := 0 to |ancestors|
        invariant |blocks| == i
        invariant forall j :: 0 <= j < i ==> ancestors[j] in known && blocks[j] == known[ancestors[j]]
      {
        var a := ancestors[i];
        assert a in Parents(b.block);
        if a in dag {
          blocks := blocks + [dag[a]];
        } else if a in accept {
          blocks := blocks + [accept[a]];
        } else {
          FirstUnfoundDecides(b.block, dag.Keys + accept.Keys, reject, i);
          return if a in reject then Bad else Lost;
        }
      }
      assert !HasLost(b.block, dag.Keys + accept.Keys, reject);
      var verdict := BlockVerifier.CheckAncestors(b.block, blocks);
      if verdict.Verified? { return Fine; }
      ghost var i :| 0 <= i < |blocks| && blocks[i].timestampMs == verdict.error.maxTimestampMs;
      assert ancestors[i] in Parents(b.block);
      return Bad;
    }

    /** Judges the released blocks in order. */
    method Judge(list: seq<VerifiedBlock>) returns (panicked: bool, accept: Dag, ghost reject: set<BlockRef>)
      requires Universe(universe) && AcceptedDag(universe, dag) && init <= dag.Keys
      requires Distinct(list) && Refs(list) !! dag.Keys && forall b :: b in list ==> Known(universe, b)
      ensures !panicked ==>
                && accept.Keys + reject == Refs(list) && accept.Keys !! reject
                && AcceptedDag(universe, dag + accept) && AllHopeless(universe, init, reject)
      ensures panicked <==> SomeLost(universe, init, dag.Keys, list)
      ensures !panicked && NoLateAncestors(universe) ==> reject == {}
    {
      accept, reject := map[], {};
      var rejected: set<BlockRef> := {};
      assert dag + accept == dag;
      for k := 0 to |list|
        invariant reject == rejected
        invariant accept.Keys + reject == Refs(list[..k]) && accept.Keys !! reject
        invariant AcceptedDag(universe, dag + accept) && AllHopeless(universe, init, reject)
        invariant forall i :: 0 <= i < k ==> !LostAt(universe, init, dag.Keys, list, i)
        invariant NoLateAncestors(universe) ==> reject == {}
      {
        hide AcceptedDag;
        hide AllHopeless;
        hide Universe;
        hide LostAt;
        var b := list[k];
        PrefixRefs(list, k);
        var v := Examine(b, accept, rejected);
        LostMeansLost(universe, init, dag, accept, reject, list, k);
        match v {
          case Lost => return true, map[], {};
          case Bad =>
            RejectIsHopeless(universe, init, dag, accept, reject, b);
            rejected := rejected + {b.ref};
            reject := reject + {b.ref};
          case Fine =>
            AcceptedExtends(universe, dag, accept, b.ref);
            accept := accept[b.ref := b.block];
        }
      }
      assert list[..|list|] == list;
      panicked := false;
    }

    /** One block of a batch: accept or suspend it, cascade to what it releases, judge all of that
        and add what passes to the DAG. `panicked` when a released block misses an ancestor. */
    method AcceptPass(b: VerifiedBlock)
      returns (panicked: bool, accepted: seq<VerifiedBlock>, toFetch: set<BlockRef>, ghost done: set<BlockRef>, ghost reject: set<BlockRef>)
      requires Valid() && Known(universe, b)
      modifies this
      ensures !panicked ==> Valid() && delivered == old(delivered) + {b.ref}
      ensures !panicked ==> Extends(old(dag), accepted, dag) && Ascending(accepted) && rejected == old(rejected) + reject && reject <= done
      ensures !panicked ==> suspended == AfterPass(old(dag), old(suspended), b, done)
      ensures done == if b.ref !in old(suspended) && b.ref !in old(dag) && Parents(b.block) <= old(dag).Keys
                      then {b.ref} + Freed(old(suspended), done) else {}
      ensures !panicked ==> Refs(accepted) + reject == done && Refs(accepted) !! reject
      ensures !panicked ==> missingBlocks == old(missingBlocks) + toFetch - {b.ref} && toFetch == old(ToFetch(Now(), b))
      ensures !panicked && NoLateAncestors(universe) ==> reject == {}
      ensures panicked ==> rejected == old(rejected) && exists r :: r in old(suspended) && Orphaned(old(dag), old(suspended)[r])
      ensures panicked ==> old(PassPanics(universe, init, dag, suspended, b))
      ensures old(NoneReleasedAgain(rejected, suspended, b.ref)) && old(PassPanics(universe, init, dag, suspended, b)) ==> panicked
    {
      hide Invariant;
      hide NoneReleasedAgain;
      hide PassPanics;
      hide Extends;
      hide NoLateAncestors;
      hide Orphaned;
      hide SomeLost;
      hide CausalOrder;
      hide Consistent;
      hide AcceptedDag;
      hide SuspendedOk;
      hide AllHopeless;
      hide Released;
      hide Universe;
      hide Ascending;
      hide Freed;
      accepted, toFetch, done, reject := [], {}, {}, {};
      var r := TryAcceptOneBlock(b);
      PanicNeedsAcceptance(universe, init, old(dag), old(suspended), b);
      NothingAccepted(dag);
      match r {
        case Processed => return false, [], {}, {}, {};
        case Suspended(fetch) => return false, [], fetch, {}, {};
        case Accepted(_) =>
      }
      Unpack(universe, init, dag, suspended, missingAncestors, old(missingBlocks), rejected, delivered);
      ghost var start, waiters := suspended, missingAncestors;
      var unsuspended;
      unsuspended, done := TryUnsuspendChildren(b);
      var list := [b] + unsuspended;
      ReleasedList(universe, dag, rejected, start, b, unsuspended);
      var accept;
      panicked, accept, reject := Judge(list);
      PanicExactly(universe, init, dag, rejected, start, b, unsuspended, done);
      if panicked { return; }
      PassKeepsInvariant(universe, init, dag, start, waiters, old(missingBlocks), rejected, delivered, b, done, accept, reject);
      accepted := InRefOrder(accept);
      OutputConnects(universe, dag, accept, accepted);
      dag := dag + accept;
      rejected := rejected + reject;
      delivered := delivered + {b.ref};
    }

    ghost function Now(): State
      reads this
    {
      State(dag, suspended, missingAncestors, missingBlocks, rejected, delivered)
    }

    /** The same, as a step from one state to the next. */
    method Pass(b: VerifiedBlock) returns (panicked: bool, accepted: seq<VerifiedBlock>, toFetch: set<BlockRef>)
      requires Valid() && Known(universe, b)
      modifies this
      ensures !panicked ==> Valid() && Completes(universe, init, old(Now()), b, accepted, Now())
      ensures !panicked ==> missingBlocks == old(missingBlocks) + toFetch - {b.ref} && toFetch == old(ToFetch(Now(), b))
      ensures panicked ==> old(PassPanics(universe, init, dag, suspended, b))
      ensures NoLateAncestors(universe) && old(rejected) == {} ==> !panicked && rejected == {}
    {
      hide Invariant;
      hide Extends;
      hide Ascending;
      hide NoLateAncestors;
      hide Orphaned;
      hide NoneReleasedAgain;
      hide PassPanics;
      hide AfterPass;
      hide Freed;
      hide Parents;
      Unpack(universe, init, dag, suspended, missingAncestors, missingBlocks, rejected, delivered);
      OrphansAreRejected(universe, dag, rejected, suspended);
      ghost var before := Now();
      ghost var done, reject;
      panicked, accepted, toFetch, done, reject := AcceptPass(b);
      if !panicked {
        assert Refs(accepted) <= done;
        assert ReleasedBy(before.dag, before.suspended, b, done) && ReleasedTo(before, b, accepted, Now(), done);
        assert Releases(before, b, accepted, Now());
      }
    }

    /** Accepts a batch, lowest rounds first, one pass after the other. Whatever the batching and the
        order: the DAG grows by exactly the listed blocks, each listed after all it references, and
        the invariant ties the DAG to what has been delivered. A panic ends the passes. */
    method TryAcceptBlocks(blocks: seq<VerifiedBlock>)
      returns (panicked: bool, accepted: seq<VerifiedBlock>, missing: set<BlockRef>,
               ghost sorted: seq<VerifiedBlock>, ghost passes: seq<seq<VerifiedBlock>>, ghost states: seq<State>)
      requires Valid() && forall b :: b in blocks ==> Known(universe, b)
      modifies this
      ensures InRoundOrder(blocks, sorted) && Passes(universe, init, sorted, passes, states) && accepted == Joined(passes)
      ensures states[0] == old(Now())
      ensures !panicked ==> |passes| == |sorted| && states[|passes|] == Now()
      ensures panicked ==> |passes| < |sorted| && PassPanics(universe, init, states[|passes|].dag, states[|passes|].suspended, sorted[|passes|])
      ensures !panicked ==> Valid() && delivered == old(delivered) + Refs(blocks) && Extends(old(dag), accepted, dag)
      ensures !panicked ==> old(missingBlocks) + missing - Refs(blocks) <= missingBlocks <= old(missingBlocks) + missing
      ensures !panicked ==> missing == Reported(sorted, states, |passes|) && missing <= AllParents(blocks)
      ensures |blocks| == 1 || old(NobodyWaitsForAny(suspended, blocks)) ==> RoundsAscend(accepted)
      ensures NoLateAncestors(universe) && old(rejected) == {} ==> !panicked && rejected == {}
    {
      hide Invariant;
      hide Passes;
      hide Joined;
      hide Completes;
      hide InRoundOrder;
      hide StableSort.SortedBy;
      hide StableSort.Rearranged;
      hide Refs;
      hide Parents;
      hide AllParents;
      hide PassPanics;
      hide NoLateAncestors;
      hide RoundsAscend;
      hide NobodyWaitsForAny;
      hide Extends;
      var list := StableSort.SortByKey(blocks, RoundOf);
      SortKeepsBlocks(blocks, list);
      sorted, passes, states := list, [], [Now()];
      accepted, missing := [], {};
      StartPasses(universe, init, list, Now());
      RefsNone(list);
      for k := 0 to |list|
        invariant Valid() && Passes(universe, init, list, passes, states) && accepted == Joined(passes)
        invariant |passes| == k && |states| == k + 1 && states[0] == old(Now()) && states[k] == Now()
        invariant delivered == old(delivered) + Refs(list[..k]) && missing <= AllParents(blocks) && missing == Reported(list, states, k)
        invariant old(missingBlocks) + missing - Refs(list[..k]) <= missingBlocks <= old(missingBlocks) + missing
        invariant NoLateAncestors(universe) && old(rejected) == {} ==> rejected == {}
      {
        RefsNext(list, k);
        ParentsOf(blocks, list[k]);
        var more, toFetch;
        panicked, more, toFetch := Pass(list[k]);
        if panicked {
          BatchOrder(universe, init, blocks, list, passes, states);
          return;
        }
        NextPass(universe, init, list, passes, states, more, Now());
        ReportedNext(list, states, k, Now());
        passes, states := passes + [more], states + [Now()];
        accepted := accepted + more;
        missing := missing + toFetch;
      }
      assert list[..|list|] == list;
      BatchOrder(universe, init, blocks, list, passes, states);
      PassesExtend(universe, init, list, passes, states);
      panicked := false;
    }
  }

  // ---------------------------------------------------------------- passes

  /** All that a manager keeps. */
  datatype State = State(dag: Dag, suspended: Suspensions, waiters: Waiters, missing: set<BlockRef>,
                         rejected: set<BlockRef>, delivered: set<BlockRef>)

  /** What is reported missing for a block: the ancestors of a new block that have not arrived. */
  ghost function ToFetch(s: State, b: VerifiedBlock): set<BlockRef> {
    if b.ref in s.suspended || b.ref in s.dag then {} else Parents(b.block) - s.dag.Keys - s.suspended.Keys
  }

  /** What is reported for the first n blocks, each in the state in which it is tried. */
  ghost function Reported(blocks: seq<VerifiedBlock>, states: seq<State>, n: nat): set<BlockRef>
    requires n <= |blocks| && n <= |states|
  {
    set k, a | 0 <= k < n && a in ToFetch(states[k], blocks[k]) :: a
  }

  lemma ReportedNext(blocks: seq<VerifiedBlock>, states: seq<State>, n: nat, next: State)
    requires n < |blocks| && |states| == n + 1
    ensures Reported(blocks, states + [next], n + 1) == Reported(blocks, states, n) + ToFetch(states[n], blocks[n])
  {
    hide ToFetch;
    var now := states + [next];
    forall a ensures a in Reported(blocks, now, n + 1) <==> a in Reported(blocks, states, n) + ToFetch(states[n], blocks[n]) {
      if a in Reported(blocks, now, n + 1) {
        var k :| 0 <= k < n + 1 && a in ToFetch(now[k], blocks[k]);
        assert now[k] == states[k];
      }
      if a in Reported(blocks, states, n) {
        var k :| 0 <= k < n && a in ToFetch(states[k], blocks[k]);
        assert now[k] == states[k];
      }
      assert now[n] == states[n];
    }
  }

  ghost predicate Ok(u: Dag, init: set<BlockRef>, s: State) {
    Invariant(u, init, s.dag, s.suspended, s.waiters, s.missing, s.rejected, s.delivered)
  }

  /** What a pass releases: the block, if it is new and complete, and what then waits for nothing. */
  ghost predicate ReleasedBy(dag: Dag, suspended: Suspensions, b: VerifiedBlock, done: set<BlockRef>) {
    done == if b.ref !in suspended && b.ref !in dag && Parents(b.block) <= dag.Keys then {b.ref} + Freed(suspended, done) else {}
  }

  ghost predicate Releases(s: State, b: VerifiedBlock, accepted: seq<VerifiedBlock>, s': State) {
    exists done :: ReleasedBy(s.dag, s.suspended, b, done) && ReleasedTo(s, b, accepted, s', done)
  }

  /** Everything released is accepted or rejected, and nobody waits for it any more. */
  ghost predicate ReleasedTo(s: State, b: VerifiedBlock, accepted: seq<VerifiedBlock>, s': State, done: set<BlockRef>) {
    Refs(accepted) <= done && s'.rejected <= s.rejected + done && s'.suspended == AfterPass(s.dag, s.suspended, b, done)
  }

  /** One pass that does not panic. */
  ghost predicate Completes(u: Dag, init: set<BlockRef>, s: State, b: VerifiedBlock, accepted: seq<VerifiedBlock>, s': State) {
    && Ok(u, init, s) && Ok(u, init, s')
    && s'.delivered == s.delivered + {b.ref} && s.rejected <= s'.rejected
    && Extends(s.dag, accepted, s'.dag) && Ascending(accepted) && Releases(s, b, accepted, s')
    && (NoneReleasedAgain(s.rejected, s.suspended, b.ref) ==> !PassPanics(u, init, s.dag, s.suspended, b))
  }

  /** Passes for the first of the blocks, with the states between them. */
  ghost predicate Passes(u: Dag, init: set<BlockRef>, blocks: seq<VerifiedBlock>, passes: seq<seq<VerifiedBlock>>, states: seq<State>) {
    && |states| == |passes| + 1 && |passes| <= |blocks|
    && forall k :: 0 <= k < |passes| ==> Completes(u, init, states[k], blocks[k], passes[k], states[k + 1])
  }

  ghost function Joined(passes: seq<seq<VerifiedBlock>>): seq<VerifiedBlock> {
    if passes == [] then [] else Joined(passes[..|passes| - 1]) + passes[|passes| - 1]
  }

  function RoundOf(b: VerifiedBlock): int { b.block.round }

  ghost predicate InRoundOrder(blocks: seq<VerifiedBlock>, sorted: seq<VerifiedBlock>) {
    StableSort.SortedBy(sorted, RoundOf) && StableSort.Rearranged(blocks, sorted, RoundOf)
  }

  lemma StartPasses(u: Dag, init: set<BlockRef>, blocks: seq<VerifiedBlock>, s: State)
    ensures Passes(u, init, blocks, [], [s]) && Joined([]) == []
  {
  }

  lemma NextPass(u: Dag, init: set<BlockRef>, blocks: seq<VerifiedBlock>, passes: seq<seq<VerifiedBlock>>, states: seq<State>,
                 more: seq<VerifiedBlock>, s: State)
    requires Passes(u, init, blocks, passes, states) && |passes| < |blocks|
    requires Completes(u, init, states[|passes|], blocks[|passes|], more, s)
    ensures Passes(u, init, blocks, passes + [more], states + [s]) && Joined(passes + [more]) == Joined(passes) + more
    ensures s.delivered == states[|passes|].delivered + {blocks[|passes|].ref}
  {
    hide Invariant;
    hide Extends;
    hide Releases;
    var passes', states' := passes + [more], states + [s];
    assert passes'[..|passes|] == passes;
    forall k | 0 <= k < |passes'| ensures Completes(u, init, states'[k], blocks[k], passes'[k], states'[k + 1]) {
      if k < |passes| { assert Completes(u, init, states[k], blocks[k], passes[k], states[k + 1]); }
    }
  }

  lemma PrefixPasses(u: Dag, init: set<BlockRef>, blocks: seq<VerifiedBlock>, passes: seq<seq<VerifiedBlock>>, states: seq<State>)
    requires Passes(u, init, blocks, passes, states) && passes != []
    ensures Passes(u, init, blocks, passes[..|passes| - 1], states[..|passes|])
    ensures Completes(u, init, states[|passes| - 1], blocks[|passes| - 1], passes[|passes| - 1], states[|passes|])
  {
    hide Completes;
  }

  /** A batch extends the DAG by what its passes accept, in that order. */
  lemma {:induction false} PassesExtend(u: Dag, init: set<BlockRef>, blocks: seq<VerifiedBlock>, passes: seq<seq<VerifiedBlock>>, states: seq<State>)
    requires Passes(u, init, blocks, passes, states)
    ensures Extends(states[0].dag, Joined(passes), states[|passes|].dag)
    decreases |passes|
  {
    hide Extends;
    hide Invariant;
    hide Releases;
    if passes == [] {
      NothingAccepted(states[0].dag);
    } else {
      var n := |passes| - 1;
      PrefixPasses(u, init, blocks, passes, states);
      PassesExtend(u, init, blocks, passes[..n], states[..n + 1]);
      ExtendsCompose(states[0].dag, Joined(passes[..n]), states[n].dag, passes[n], states[n + 1].dag);
    }
  }

  // ---------------------------------------------------------------- the order of rounds

  ghost predicate RoundsAscend(blocks: seq<VerifiedBlock>) {
    forall i, j :: 0 <= i < j < |blocks| ==> blocks[i].ref.round <= blocks[j].ref.round
  }

  ghost predicate NobodyWaits(suspended: Suspensions, r: BlockRef) {
    forall x :: x in suspended ==> r !in suspended[x].missing
  }

  ghost predicate NobodyWaitsForAny(suspended: Suspensions, blocks: seq<VerifiedBlock>) {
    forall i :: 0 <= i < |blocks| ==> NobodyWaits(suspended, blocks[i].ref)
  }

  lemma {:induction false} NothingUnlocked(suspended: Suspensions, first: BlockRef, r: BlockRef)
    requires WaitsDown(suspended) && NobodyWaits(suspended, first) && forall x :: x in suspended ==> suspended[x].missing != {}
    ensures !Unlocked(suspended, first, r)
    decreases r.round
  {
    if r in suspended {
      var m :| m in suspended[r].missing;
      NothingUnlocked(suspended, first, m);
    }
  }

  /** A block that nobody waits for is accepted alone or not at all. */
  lemma QuietPass(u: Dag, init: set<BlockRef>, s: State, b: VerifiedBlock, accepted: seq<VerifiedBlock>, s': State)
    requires Completes(u, init, s, b, accepted, s') && NobodyWaits(s.suspended, b.ref) && Known(u, b)
    ensures |accepted| <= 1 && forall i :: 0 <= i < |accepted| ==> accepted[i].ref == b.ref
    ensures forall x :: NobodyWaits(s.suspended, x) && x.round >= b.ref.round ==> NobodyWaits(s'.suspended, x)
  {
    hide Invariant;
    hide Freed;
    hide Extends;
    assert |accepted| > 1 ==> accepted[0].ref != accepted[1].ref;
    var done :| ReleasedBy(s.dag, s.suspended, b, done) && ReleasedTo(s, b, accepted, s', done);
    NobodyFreed(u, init, s, b, done);
    forall i | 0 <= i < |accepted| ensures accepted[i].ref == b.ref { assert accepted[i].ref in Refs(accepted); }
    StillNobody(u, init, s, b, done);
  }

  lemma NobodyFreed(u: Dag, init: set<BlockRef>, s: State, b: VerifiedBlock, done: set<BlockRef>)
    requires Ok(u, init, s) && NobodyWaits(s.suspended, b.ref) && ReleasedBy(s.dag, s.suspended, b, done)
    ensures done <= {b.ref}
  {
    hide Freed;
    Unpack(u, init, s.dag, s.suspended, s.waiters, s.missing, s.rejected, s.delivered);
    if done != {} {
      forall r | r in Freed(s.suspended, done) ensures false {
        FreedIsUnlocked(s.suspended, b.ref, done, r);
        NothingUnlocked(s.suspended, b.ref, r);
      }
    }
  }

  lemma StillNobody(u: Dag, init: set<BlockRef>, s: State, b: VerifiedBlock, done: set<BlockRef>)
    requires Ok(u, init, s) && Known(u, b)
    ensures forall x :: NobodyWaits(s.suspended, x) && x.round >= b.ref.round ==> NobodyWaits(AfterPass(s.dag, s.suspended, b, done), x)
  {
    hide SuspendedOk;
    hide AcceptedDag;
    hide AllHopeless;
    assert forall a :: a in Parents(b.block) ==> a.round < b.ref.round;
  }

  /** Nobody waits for what is still to come, and all that was accepted lies below it. */
  ghost predicate Quiet(blocks: seq<VerifiedBlock>, accepted: seq<VerifiedBlock>, suspended: Suspensions, k: nat) {
    && RoundsAscend(accepted)
    && forall j :: k <= j < |blocks| ==>
         NobodyWaits(suspended, blocks[j].ref) && forall i :: 0 <= i < |accepted| ==> accepted[i].ref.round <= blocks[j].ref.round
  }

  lemma QuietStart(blocks: seq<VerifiedBlock>, suspended: Suspensions)
    requires NobodyWaitsForAny(suspended, blocks)
    ensures Quiet(blocks, [], suspended, 0)
  {
  }

  lemma QuietNext(blocks: seq<VerifiedBlock>, accepted: seq<VerifiedBlock>, suspended: Suspensions, k: nat)
    requires k < |blocks| && Quiet(blocks, accepted, suspended, k)
    ensures NobodyWaits(suspended, blocks[k].ref)
  {
  }

  lemma QuietStep(blocks: seq<VerifiedBlock>, accepted: seq<VerifiedBlock>, suspended: Suspensions, k: nat,
                  more: seq<VerifiedBlock>, suspended': Suspensions)
    requires k < |blocks| && Quiet(blocks, accepted, suspended, k)
    requires forall j :: k < j < |blocks| ==> blocks[k].ref.round <= blocks[j].ref.round
    requires |more| <= 1 && forall i :: 0 <= i < |more| ==> more[i].ref == blocks[k].ref
    requires forall x :: NobodyWaits(suspended, x) && x.round >= blocks[k].ref.round ==> NobodyWaits(suspended', x)
    ensures Quiet(blocks, accepted + more, suspended', k + 1)
  {
    hide NobodyWaits;
  }

  lemma {:induction false} QuietPasses(u: Dag, init: set<BlockRef>, blocks: seq<VerifiedBlock>, passes: seq<seq<VerifiedBlock>>, states: seq<State>)
    requires Passes(u, init, blocks, passes, states) && NobodyWaitsForAny(states[0].suspended, blocks)
    requires forall i :: 0 <= i < |blocks| ==> Known(u, blocks[i])
    requires forall i, j :: 0 <= i < j < |blocks| ==> blocks[i].ref.round <= blocks[j].ref.round
    ensures |passes| <= |blocks| && Quiet(blocks, Joined(passes), states[|passes|].suspended, |passes|)
    decreases |passes|
  {
    hide Completes;
    hide Quiet;
    if passes == [] {
      QuietStart(blocks, states[0].suspended);
    } else {
      var n := |passes| - 1;
      PrefixPasses(u, init, blocks, passes, states);
      QuietPasses(u, init, blocks, passes[..n], states[..n + 1]);
      QuietNext(blocks, Joined(passes[..n]), states[n].suspended, n);
      QuietPass(u, init, states[n], blocks[n], passes[n], states[n + 1]);
      QuietStep(blocks, Joined(passes[..n]), states[n].suspended, n, passes[n], states[n + 1].suspended);
    }
  }

  lemma KnownRounds(u: Dag, blocks: seq<VerifiedBlock>)
    requires Universe(u) && (forall i :: 0 <= i < |blocks| ==> Known(u, blocks[i])) && StableSort.SortedBy(blocks, RoundOf)
    ensures forall i, j :: 0 <= i < j < |blocks| ==> blocks[i].ref.round <= blocks[j].ref.round
  {
    forall i, j | 0 <= i < j < |blocks| ensures blocks[i].ref.round <= blocks[j].ref.round {
      assert RoundOf(blocks[i]) <= RoundOf(blocks[j]);
      assert blocks[i].ref in u && blocks[j].ref in u;
    }
  }

  /** Rounds ascend in what a batch returns when it has one block, or when nothing waits for it. */
  lemma BatchOrder(u: Dag, init: set<BlockRef>, blocks: seq<VerifiedBlock>, sorted: seq<VerifiedBlock>,
                   passes: seq<seq<VerifiedBlock>>, states: seq<State>)
    requires Passes(u, init, sorted, passes, states) && Ok(u, init, states[0]) && InRoundOrder(blocks, sorted)
    requires forall b :: b in blocks ==> Known(u, b)
    ensures |blocks| == 1 || NobodyWaitsForAny(states[0].suspended, blocks) ==> RoundsAscend(Joined(passes))
  {
    hide Completes;
    SortKeepsBlocks(blocks, sorted);
    forall i | 0 <= i < |sorted| ensures sorted[i] in blocks { assert sorted[i] in sorted; }
    if NobodyWaitsForAny(states[0].suspended, blocks) {
      forall i | 0 <= i < |sorted| ensures NobodyWaits(states[0].suspended, sorted[i].ref) {
        var j :| 0 <= j < |blocks| && blocks[j] == sorted[i];
      }
      KnownRounds(u, sorted);
      QuietPasses(u, init, sorted, passes, states);
      assert Quiet(sorted, Joined(passes), states[|passes|].suspended, |passes|);
    } else if |blocks| == 1 && passes != [] {
      PrefixPasses(u, init, sorted, passes, states);
      OnePass(u, init, states[0], sorted[0], passes[0], states[1]);
      assert passes[..0] == [] && Joined(passes) == [] + passes[0];
    }
  }

  lemma OnePass(u: Dag, init: set<BlockRef>, s: State, b: VerifiedBlock, accepted: seq<VerifiedBlock>, s': State)
    requires Completes(u, init, s, b, accepted, s')
    ensures RoundsAscend(accepted)
  {
    hide Invariant;
  }

  /** Everything that some block of a batch references. */
  ghost function AllParents(blocks: seq<VerifiedBlock>): set<BlockRef> {
    set i, a | 0 <= i < |blocks| && a in Parents(blocks[i].block) :: a
  }

  lemma ParentsOf(blocks: seq<VerifiedBlock>, b: VerifiedBlock)
    requires b in blocks
    ensures Parents(b.block) <= AllParents(blocks)
  {
  }

  lemma CascadeEnd(first: BlockRef, unsuspended: seq<VerifiedBlock>, done: set<BlockRef>)
    requires done <= {first} + Refs(unsuspended) && Refs([]) == {first} + Refs(unsuspended) - done
    ensures done == {first} + Refs(unsuspended)
  {
    assert Refs([]) == {};
    var all := {first} + Refs(unsuspended);
    forall r | r in all ensures r in done { assert r !in all - done; }
  }

  /** The suspensions after a pass: b suspended, or all of `done` no longer waited for. */
  ghost function AfterPass(dag: Dag, suspended: Suspensions, b: VerifiedBlock, done: set<BlockRef>): Suspensions {
    if b.ref in suspended || b.ref in dag then suspended
    else if Parents(b.block) <= dag.Keys then Released(suspended, done)
    else suspended[b.ref := SuspendedBlock(b, Parents(b.block) - dag.Keys)]
  }

  lemma RefsNone(blocks: seq<VerifiedBlock>)
    ensures Refs(blocks[..0]) == {}
  {
  }

  lemma RefsNext(blocks: seq<VerifiedBlock>, k: nat)
    requires k < |blocks|
    ensures Refs(blocks[..k + 1]) == Refs(blocks[..k]) + {blocks[k].ref}
  {
    assert blocks[..k + 1] == blocks[..k] + [blocks[k]];
    RefsConcat(blocks[..k], [blocks[k]]);
    assert Refs([blocks[k]]) == {blocks[k].ref} by { assert [blocks[k]][0].ref in Refs([blocks[k]]); }
  }

  lemma SortKeepsBlocks(blocks: seq<VerifiedBlock>, sorted: seq<VerifiedBlock>)
    requires StableSort.SortedBy(sorted, RoundOf) && StableSort.Rearranged(blocks, sorted, RoundOf)
    ensures InRoundOrder(blocks, sorted)
    ensures |sorted| == |blocks| && Refs(sorted) == Refs(blocks) && forall b :: b in sorted <==> b in blocks
  {
    assert |multiset(sorted)| == |sorted| && |multiset(blocks)| == |blocks|;
    forall b ensures b in sorted <==> b in blocks {
      assert b in multiset(sorted) <==> b in multiset(blocks);
    }
    forall r ensures r in Refs(sorted) <==> r in Refs(blocks) {
      if i :| 0 <= i < |sorted| && sorted[i].ref == r { assert sorted[i] in blocks; }
      if i :| 0 <= i < |blocks| && blocks[i].ref == r { assert blocks[i] in sorted; }
    }
  }

  /** Only a rejected ancestor can orphan a suspended block. */
  lemma OrphansAreRejected(u: Dag, dag: Dag, rejected: set<BlockRef>, suspended: Suspensions)
    requires SuspendedOk(u, dag, rejected, suspended)
    ensures forall r :: r in suspended && Orphaned(dag, suspended[r]) ==> rejected != {}
  {
    forall r | r in suspended && Orphaned(dag, suspended[r]) ensures rejected != {} {
      assert SuspendedEntry(u, dag, rejected, r, suspended[r]);
    }
  }

  lemma ExtendsCompose(dag: Dag, xs: seq<VerifiedBlock>, dag': Dag, ys: seq<VerifiedBlock>, dag'': Dag)
    requires Extends(dag, xs, dag') && Extends(dag', ys, dag'')
    ensures Extends(dag, xs + ys, dag'')
  {
    hide Refs;
    hide Distinct;
    hide LinksBack;
    RefsConcat(xs, ys);
    DistinctConcat(xs, ys);
    LinksCompose(dag.Keys, xs, ys);
  }

  lemma LinksCompose(known: set<BlockRef>, xs: seq<VerifiedBlock>, ys: seq<VerifiedBlock>)
    requires LinksBack(known, xs) && LinksBack(known + Refs(xs), ys)
    ensures LinksBack(known, xs + ys)
  {
    hide Refs;
    var all := xs + ys;
    forall k | 0 <= k < |all| ensures Parents(all[k].block) <= known + Refs(all[..k]) {
      if k < |xs| {
        assert all[k] == xs[k] && all[..k] == xs[..k];
      } else {
        assert all[k] == ys[k - |xs|] && all[..k] == xs + ys[..k - |xs|];
        RefsConcat(xs, ys[..k - |xs|]);
      }
    }
  }

  // ---------------------------------------------------------------- output

  predicate RefLeq(x: BlockRef, y: BlockRef) {
    x.round < y.round || (x.round == y.round && (x.author < y.author || (x.author == y.author && x.digest <= y.digest)))
  }

  lemma LeastRef(s: set<BlockRef>)
    requires s != {}
    ensures exists r :: r in s && forall x :: x in s ==> RefLeq(r, x)
  {
    var r := Least(s, RefLeq);
    assert forall x :: x in s ==> RefLeq(r, x);
  }

  ghost predicate Ascending(blocks: seq<VerifiedBlock>) {
    forall i, j :: 0 <= i < j < |blocks| ==> RefLeq(blocks[i].ref, blocks[j].ref) && blocks[i].ref != blocks[j].ref
  }

  /** What has been listed is a lower part of the accepted blocks, in order. */
  ghost predicate ListsLower(accept: Dag, blocks: seq<VerifiedBlock>, todo: set<BlockRef>) {
    && Refs(blocks) + todo == accept.Keys && Refs(blocks) !! todo && Ascending(blocks)
    && (forall b :: b in blocks ==> b.ref in accept && b.block == accept[b.ref])
    && (forall r, x :: r in Refs(blocks) && x in todo ==> RefLeq(r, x))
  }

  lemma ListNext(accept: Dag, blocks: seq<VerifiedBlock>, todo: set<BlockRef>, r: BlockRef)
    requires ListsLower(accept, blocks, todo) && r in todo && forall x :: x in todo ==> RefLeq(r, x)
    ensures ListsLower(accept, blocks + [VerifiedBlock(r, accept[r])], todo - {r})
  {
    hide RefLeq;
    var b := VerifiedBlock(r, accept[r]);
    var blocks' := blocks + [b];
    RefsConcat(blocks, [b]);
    assert [b][0].ref in Refs([b]);
    assert Refs(blocks') == Refs(blocks) + {r};
    forall i, j | 0 <= i < j < |blocks'| ensures RefLeq(blocks'[i].ref, blocks'[j].ref) && blocks'[i].ref != blocks'[j].ref {
      assert blocks'[i] == blocks[i] && blocks[i].ref in Refs(blocks);
      if j < |blocks| { assert blocks'[j] == blocks[j]; }
    }
  }

  /** The values of a map, in the order of its keys. */
  method InRefOrder(accept: Dag) returns (blocks: seq<VerifiedBlock>)
    ensures Refs(blocks) == accept.Keys && Ascending(blocks)
    ensures forall i, j :: 0 <= i < j < |blocks| ==>
              var r, s := blocks[i].ref, blocks[j].ref;
              r.round < s.round || (r.round == s.round && (r.author < s.author || (r.author == s.author && r.digest < s.digest)))
    ensures forall b :: b in blocks ==> b.ref in accept && b.block == accept[b.ref]
  {
    blocks := [];
    var todo := accept.Keys;
    assert Refs([]) == {};
    while todo != {}
      invariant ListsLower(accept, blocks, todo)
      decreases |todo|
    {
      hide ListsLower;
      LeastRef(todo);
      var r :| r in todo && forall x :: x in todo ==> RefLeq(r, x);
      Listed(accept, blocks, todo);
      ListNext(accept, blocks, todo, r);
      blocks := blocks + [VerifiedBlock(r, accept[r])];
      todo := todo - {r};
    }
  }

  lemma Listed(accept: Dag, blocks: seq<VerifiedBlock>, todo: set<BlockRef>)
    requires ListsLower(accept, blocks, todo)
    ensures todo <= accept.Keys
  {
  }

  /** `dag'` is `dag` plus the listed blocks, each listed once, after everything it references. */
  ghost predicate Extends(dag: Dag, accepted: seq<VerifiedBlock>, dag': Dag) {
    && Distinct(accepted) && Refs(accepted) !! dag.Keys
    && dag'.Keys == dag.Keys + Refs(accepted)
    && (forall r :: r in dag ==> dag'[r] == dag[r])
    && (forall b :: b in accepted ==> b.ref in dag' && dag'[b.ref] == b.block)
    && LinksBack(dag.Keys, accepted)
  }

  /** Every listed block references known or earlier listed blocks only. */
  ghost predicate LinksBack(known: set<BlockRef>, blocks: seq<VerifiedBlock>) {
    forall k :: 0 <= k < |blocks| ==> Parents(blocks[k].block) <= known + Refs(blocks[..k])
  }

  lemma NothingAccepted(dag: Dag)
    ensures Extends(dag, [], dag) && Ascending([])
  {
    assert Refs([]) == {};
  }

  lemma OutputConnects(u: Dag, dag: Dag, accept: Dag, accepted: seq<VerifiedBlock>)
    requires Universe(u) && AcceptedDag(u, dag + accept) && accept.Keys !! dag.Keys
    requires Refs(accepted) == accept.Keys && Ascending(accepted)
    requires forall b :: b in accepted ==> b.ref in accept && b.block == accept[b.ref]
    ensures Extends(dag, accepted, dag + accept)
  {
    hide AcceptedDag;
    var now := dag + accept;
    forall k | 0 <= k < |accepted| ensures Parents(accepted[k].block) <= dag.Keys + Refs(accepted[..k]) {
      AcceptedAt(u, now, accepted[k].ref);
      forall a | a in Parents(accepted[k].block) && a !in dag ensures a in Refs(accepted[..k]) {
        ListedBefore(accepted, k, a);
      }
    }
  }

  lemma ListedBefore(blocks: seq<VerifiedBlock>, k: nat, a: BlockRef)
    requires k < |blocks| && Ascending(blocks) && a in Refs(blocks) && a.round < blocks[k].ref.round
    ensures a in Refs(blocks[..k])
  {
    var j :| 0 <= j < |blocks| && blocks[j].ref == a;
    assert j < k;
    assert blocks[..k][j].ref == a;
  }

  lemma AcceptedAt(u: Dag, dag: Dag, r: BlockRef)
    requires AcceptedDag(u, dag) && r in dag
    ensures AcceptedEntry(u, dag, r)
  {
  }

  // ---------------------------------------------------------------- panics

  /** A suspended block has an ancestor that is neither in the DAG nor waited for. */
  ghost predicate Orphaned(dag: Dag, s: SuspendedBlock) {
    exists a :: a in Parents(s.block.block) && a !in dag && a !in s.missing
  }


  /** Accepting `first` releases r: r waits for `first` and for released blocks only. */
  ghost predicate Unlocked(suspended: Suspensions, first: BlockRef, r: BlockRef)
    requires WaitsDown(suspended)
    decreases r.round
  {
    && r in suspended
    && forall m :: m in suspended[r].missing ==> m == first || Unlocked(suspended, first, m)
  }

  ghost predicate WaitsDown(suspended: Suspensions) {
    forall r, m :: r in suspended && m in suspended[r].missing ==> m.round < r.round
  }

  /** No rejected block that was delivered again, and is suspended now, is released with `first`. */
  ghost predicate NoneReleasedAgain(rejected: set<BlockRef>, suspended: Suspensions, first: BlockRef) {
    WaitsDown(suspended) && forall r :: r in rejected ==> !Unlocked(suspended, first, r)
  }

  /** The suspended block has an ancestor that is lost, and is not `first` delivered again, and
      everything listed before it is in the DAG or is waited for and can be accepted. */
  ghost predicate LosesAncestor(u: Dag, init: set<BlockRef>, dag: Dag, s: SuspendedBlock, first: BlockRef)
    requires Universe(u)
  {
    exists i: nat :: LosesAncestorAt(u, init, dag, s, first, i)
  }

  ghost predicate LosesAncestorAt(u: Dag, init: set<BlockRef>, dag: Dag, s: SuspendedBlock, first: BlockRef, i: nat)
    requires Universe(u)
  {
    var ancestors := s.block.block.ancestors;
    && i < |ancestors| && ancestors[i] !in dag && ancestors[i] !in s.missing && ancestors[i] != first
    && forall j :: 0 <= j < i ==>
         ancestors[j] in dag || (ancestors[j] in s.missing && !Hopeless(u, init, ancestors[j]))
  }

  /** Delivering b panics: b is new and complete, and it releases a block that loses an ancestor. */
  ghost predicate PassPanics(u: Dag, init: set<BlockRef>, dag: Dag, suspended: Suspensions, b: VerifiedBlock) {
    && Universe(u) && WaitsDown(suspended)
    && b.ref !in suspended && b.ref !in dag && Parents(b.block) <= dag.Keys
    && exists r :: Unlocked(suspended, b.ref, r) && LosesAncestor(u, init, dag, suspended[r], b.ref)
  }

  lemma PanicNeedsAcceptance(u: Dag, init: set<BlockRef>, dag: Dag, suspended: Suspensions, b: VerifiedBlock)
    ensures b.ref in suspended || b.ref in dag || !(Parents(b.block) <= dag.Keys) ==> !PassPanics(u, init, dag, suspended, b)
  {
  }

  lemma Unpack(u: Dag, init: set<BlockRef>, dag: Dag, suspended: Suspensions, waiters: Waiters,
               missing: set<BlockRef>, rejected: set<BlockRef>, delivered: set<BlockRef>)
    requires Invariant(u, init, dag, suspended, waiters, missing, rejected, delivered)
    ensures Universe(u) && AcceptedDag(u, dag) && Consistent(suspended, waiters)
    ensures SuspendedOk(u, dag, rejected, suspended) && init <= dag.Keys && AllHopeless(u, init, rejected)
    ensures Named(suspended) && WaitsDown(suspended)
  {
    forall r | r in suspended ensures suspended[r].block.ref == r && forall m :: m in suspended[r].missing ==> m.round < r.round {
      assert SuspendedEntry(u, dag, rejected, r, suspended[r]);
    }
  }

  /** What was released, with the block that released it in front, is ready to be judged. */
  lemma ReleasedList(u: Dag, dag: Dag, rejected: set<BlockRef>, suspended: Suspensions, b: VerifiedBlock, freed: seq<VerifiedBlock>)
    requires SuspendedOk(u, dag, rejected, suspended) && CausalOrder(suspended, b.ref, freed) && Distinct(freed)
    requires Known(u, b) && b.ref !in suspended && b.ref !in dag
    ensures var list := [b] + freed;
            && Distinct(list) && Refs(list) == {b.ref} + Refs(freed) && Refs(list) !! dag.Keys
            && (forall x :: x in list ==> Known(u, x))
            && (forall k :: 0 <= k < |freed| ==> Refs(list[..k + 1]) == {b.ref} + Refs(freed[..k]))
  {
    forall x | x in freed ensures Known(u, x) && x.ref !in dag && x.ref in suspended {
      var k :| 0 <= k < |freed| && freed[k] == x;
      assert WaitsForEarlier(suspended, b.ref, freed, k);
      assert SuspendedEntry(u, dag, rejected, x.ref, suspended[x.ref]);
    }
    assert [b][0].ref in Refs([b]);
    assert Refs([b]) == {b.ref};
    RefsConcat([b], freed);
    DistinctConcat([b], freed);
    var list := [b] + freed;
    forall k | 0 <= k < |freed| ensures Refs(list[..k + 1]) == {b.ref} + Refs(freed[..k]) {
      assert list[..k + 1] == [b] + freed[..k];
      RefsConcat([b], freed[..k]);
    }
  }

  /** A lost ancestor of a released block is one that its suspension had lost before; and if no
      rejected block is released again, what the suspension had lost is lost. */
  lemma LostMatches(u: Dag, init: set<BlockRef>, dag: Dag, rejected: set<BlockRef>, suspended: Suspensions,
                    b: VerifiedBlock, freed: seq<VerifiedBlock>, k: nat, i: nat)
    requires Universe(u) && SuspendedOk(u, dag, rejected, suspended) && CausalOrder(suspended, b.ref, freed) && Distinct(freed)
    requires Known(u, b) && b.ref !in suspended && b.ref !in dag && AllHopeless(u, init, rejected)
    requires Refs(freed) <= suspended.Keys && k < |freed|
    ensures freed[k].ref in suspended
    ensures var list, s := [b] + freed, suspended[freed[k].ref];
            && (LostAncestor(u, init, dag.Keys, list, k + 1, i) ==> Orphaned(dag, s) && LosesAncestorAt(u, init, dag, s, b.ref, i))
            && (rejected !! Refs(freed) && LosesAncestorAt(u, init, dag, s, b.ref, i) ==>
                  LostAncestor(u, init, dag.Keys, list, k + 1, i))
  {
    hide SuspendedOk;
    hide Universe;
    hide Hopeless;
    hide Refs;
    assert WaitsForEarlier(suspended, b.ref, freed, k);
    assert SuspendedEntry(u, dag, rejected, freed[k].ref, suspended[freed[k].ref]) by { EntryOf(u, dag, rejected, suspended, freed[k].ref); }
    ReleasedList(u, dag, rejected, suspended, b, freed);
    EarlierAreReleased(freed, k);
    var list, s := [b] + freed, suspended[freed[k].ref];
    assert list[k + 1] == freed[k];
    var ancestors := freed[k].block.ancestors;
    forall j | 0 <= j < |ancestors|
      ensures ancestors[j] in dag || ancestors[j] in s.missing || ancestors[j] in rejected
      ensures ancestors[j] in s.missing ==> ancestors[j] in Refs(list[..k + 1])
    {
      assert ancestors[j] in Parents(freed[k].block);
    }
    if LostAncestor(u, init, dag.Keys, list, k + 1, i) { assert ancestors[i] in Parents(freed[k].block); }
  }

  lemma EntryOf(u: Dag, dag: Dag, rejected: set<BlockRef>, suspended: Suspensions, r: BlockRef)
    requires SuspendedOk(u, dag, rejected, suspended) && r in suspended
    ensures SuspendedEntry(u, dag, rejected, r, suspended[r])
  {
  }

  lemma EarlierAreReleased(freed: seq<VerifiedBlock>, k: nat)
    requires k <= |freed|
    ensures Refs(freed[..k]) <= Refs(freed)
  {
    forall r | r in Refs(freed[..k]) ensures r in Refs(freed) {
      var i :| 0 <= i < k && freed[..k][i].ref == r;
      assert freed[i].ref == r;
    }
  }

  /** What is released is what waits, directly or not, for the accepted block only. */
  lemma {:induction false} FreedIsUnlocked(suspended: Suspensions, first: BlockRef, done: set<BlockRef>, r: BlockRef)
    requires WaitsDown(suspended) && done == {first} + Freed(suspended, done)
    ensures r in Freed(suspended, done) <==> Unlocked(suspended, first, r)
    decreases r.round
  {
    if r in suspended {
      forall m | m in suspended[r].missing ensures m in done <==> m == first || Unlocked(suspended, first, m) {
        FreedIsUnlocked(suspended, first, done, m);
      }
    }
  }

  ghost predicate SomeLost(u: Dag, init: set<BlockRef>, known: set<BlockRef>, list: seq<VerifiedBlock>)
    requires Universe(u)
  {
    exists k :: 0 <= k < |list| && LostAt(u, init, known, list, k)
  }

  lemma PanicOnlyIf(u: Dag, init: set<BlockRef>, dag: Dag, rejected: set<BlockRef>, suspended: Suspensions,
                    b: VerifiedBlock, freed: seq<VerifiedBlock>, done: set<BlockRef>)
    requires Universe(u) && SuspendedOk(u, dag, rejected, suspended) && WaitsDown(suspended) && AllHopeless(u, init, rejected)
    requires CausalOrder(suspended, b.ref, freed) && Distinct(freed)
    requires Known(u, b) && b.ref !in suspended && b.ref !in dag && Parents(b.block) <= dag.Keys
    requires done == {b.ref} + Freed(suspended, done) && Refs(freed) == Freed(suspended, done)
    requires SomeLost(u, init, dag.Keys, [b] + freed)
    ensures (exists r :: r in suspended && Orphaned(dag, suspended[r])) && PassPanics(u, init, dag, suspended, b)
  {
    hide Universe;
    hide SuspendedOk;
    hide AllHopeless;
    hide LostAncestor;
    hide LosesAncestorAt;
    hide CausalOrder;
    hide Orphaned;
    var list := [b] + freed;
    assert Refs(freed) <= suspended.Keys;
    var k :| 0 <= k < |list| && LostAt(u, init, dag.Keys, list, k);
    var i: nat :| LostAncestor(u, init, dag.Keys, list, k, i);
    FirstIsFound(u, init, dag, list, i);
    LostMatches(u, init, dag, rejected, suspended, b, freed, k - 1, i);
    FreedAt(freed, k - 1);
    FreedIsUnlocked(suspended, b.ref, done, freed[k - 1].ref);
  }

  lemma PanicIf(u: Dag, init: set<BlockRef>, dag: Dag, rejected: set<BlockRef>, suspended: Suspensions,
                b: VerifiedBlock, freed: seq<VerifiedBlock>, done: set<BlockRef>)
    requires Universe(u) && SuspendedOk(u, dag, rejected, suspended) && WaitsDown(suspended) && AllHopeless(u, init, rejected)
    requires CausalOrder(suspended, b.ref, freed) && Distinct(freed)
    requires Known(u, b) && b.ref !in suspended && b.ref !in dag && Parents(b.block) <= dag.Keys
    requires done == {b.ref} + Freed(suspended, done) && Refs(freed) == Freed(suspended, done)
    requires NoneReleasedAgain(rejected, suspended, b.ref) && PassPanics(u, init, dag, suspended, b)
    ensures SomeLost(u, init, dag.Keys, [b] + freed)
  {
    hide Universe;
    hide SuspendedOk;
    hide AllHopeless;
    hide LostAncestor;
    hide LosesAncestorAt;
    hide CausalOrder;
    hide Orphaned;
    var list := [b] + freed;
    assert Refs(freed) <= suspended.Keys;
    var r :| Unlocked(suspended, b.ref, r) && LosesAncestor(u, init, dag, suspended[r], b.ref);
    var i: nat :| LosesAncestorAt(u, init, dag, suspended[r], b.ref, i);
    FreedIsUnlocked(suspended, b.ref, done, r);
    var k :| 0 <= k < |freed| && freed[k].ref == r;
    forall x | x in Refs(freed) ensures x !in rejected { FreedIsUnlocked(suspended, b.ref, done, x); }
    LostMatches(u, init, dag, rejected, suspended, b, freed, k, i);
    assert LostAt(u, init, dag.Keys, list, k + 1);
  }

  /** A pass panics only if the delivered block releases a loser; and exactly then, as long as no
      rejected block is released again in the same pass. */
  lemma PanicExactly(u: Dag, init: set<BlockRef>, dag: Dag, rejected: set<BlockRef>, suspended: Suspensions,
                     b: VerifiedBlock, freed: seq<VerifiedBlock>, done: set<BlockRef>)
    requires Universe(u) && SuspendedOk(u, dag, rejected, suspended) && WaitsDown(suspended) && AllHopeless(u, init, rejected)
    requires CausalOrder(suspended, b.ref, freed) && Distinct(freed)
    requires Known(u, b) && b.ref !in suspended && b.ref !in dag && Parents(b.block) <= dag.Keys
    requires done == {b.ref} + Freed(suspended, done) && Refs(freed) == Freed(suspended, done)
    ensures SomeLost(u, init, dag.Keys, [b] + freed) ==> exists r :: r in suspended && Orphaned(dag, suspended[r])
    ensures SomeLost(u, init, dag.Keys, [b] + freed) ==> PassPanics(u, init, dag, suspended, b)
    ensures NoneReleasedAgain(rejected, suspended, b.ref) && PassPanics(u, init, dag, suspended, b) ==>
              SomeLost(u, init, dag.Keys, [b] + freed)
  {
    hide Universe;
    hide SuspendedOk;
    hide AllHopeless;
    hide LostAncestor;
    hide LosesAncestorAt;
    hide CausalOrder;
    hide Orphaned;
    hide SomeLost;
    hide PassPanics;
    hide NoneReleasedAgain;
    if SomeLost(u, init, dag.Keys, [b] + freed) {
      PanicOnlyIf(u, init, dag, rejected, suspended, b, freed, done);
    } else if NoneReleasedAgain(rejected, suspended, b.ref) && PassPanics(u, init, dag, suspended, b) {
      PanicIf(u, init, dag, rejected, suspended, b, freed, done);
    }
  }

  lemma FreedAt(freed: seq<VerifiedBlock>, k: nat)
    requires k < |freed|
    ensures freed[k].ref in Refs(freed)
  {
  }

  lemma FirstIsFound(u: Dag, init: set<BlockRef>, dag: Dag, list: seq<VerifiedBlock>, i: nat)
    requires Universe(u) && |list| > 0 && Parents(list[0].block) <= dag.Keys
    ensures !LostAncestor(u, init, dag.Keys, list, 0, i)
  {
    assert i < |list[0].block.ancestors| ==> list[0].block.ancestors[i] in Parents(list[0].block);
  }

  /** A pass that completes keeps everything in order, whatever was accepted and rejected in it. */
  lemma PassKeepsInvariant(u: Dag, init: set<BlockRef>, dag: Dag, suspended: Suspensions, waiters: Waiters,
                           missing: set<BlockRef>, rejected: set<BlockRef>, delivered: set<BlockRef>,
                           b: VerifiedBlock, done: set<BlockRef>, accept: Dag, reject: set<BlockRef>)
    requires Invariant(u, init, dag, suspended, waiters, missing, rejected, delivered)
    requires b.ref !in suspended && b.ref !in dag
    requires done == {b.ref} + Freed(suspended, done) && accept.Keys + reject == done && accept.Keys !! reject
    requires AcceptedDag(u, dag + accept) && accept.Keys !! dag.Keys && AllHopeless(u, init, reject)
    requires Consistent(Released(suspended, done), waiters - done)
    ensures Invariant(u, init, dag + accept, Released(suspended, done), waiters - done,
                      missing - {b.ref}, rejected + reject, delivered + {b.ref})
  {
    hide AcceptedDag;
    hide Consistent;
    hide Universe;
    hide SuspendedEntry;
    hide Hopeless;
    var suspended', waiters', dag' := Released(suspended, done), waiters - done, dag + accept;
    assert suspended'.Keys == suspended.Keys - Freed(suspended, done);
    assert missing - {b.ref} == waiters'.Keys - suspended'.Keys;
    assert delivered + {b.ref} + init == dag'.Keys + suspended'.Keys + (rejected + reject) + init;
    forall r | r in suspended' ensures SuspendedEntry(u, dag', rejected + reject, r, suspended'[r]) {
      StillSuspended(u, dag, rejected, r, suspended[r], done, accept, reject);
    }
  }

  lemma StillSuspended(u: Dag, dag: Dag, rejected: set<BlockRef>, r: BlockRef, s: SuspendedBlock,
                       done: set<BlockRef>, accept: Dag, reject: set<BlockRef>)
    requires SuspendedEntry(u, dag, rejected, r, s) && r !in done && accept.Keys + reject == done
    ensures SuspendedEntry(u, dag + accept, rejected + reject, r, s.(missing := s.missing - done))
  {
  }

  /** No block of the universe is earlier than one it references. */
  ghost predicate NoLateAncestors(u: Dag) {
    forall r, a :: r in u && a in Parents(u[r]) && a in u ==> u[a].timestampMs <= u[r].timestampMs
  }

  datatype Finding = Fine | Bad | Lost

  /** Block k has an ancestor that is nowhere to be found, and all ancestors before that one are in
      the DAG or were released earlier and can be accepted. */
  ghost predicate LostAt(u: Dag, init: set<BlockRef>, known: set<BlockRef>, list: seq<VerifiedBlock>, k: nat)
    requires Universe(u) && k < |list|
  {
    exists i: nat :: LostAncestor(u, init, known, list, k, i)
  }

  ghost predicate LostAncestor(u: Dag, init: set<BlockRef>, known: set<BlockRef>, list: seq<VerifiedBlock>, k: nat, i: nat)
    requires Universe(u) && k < |list|
  {
    var ancestors := list[k].block.ancestors;
    && i < |ancestors| && ancestors[i] !in known && ancestors[i] !in Refs(list[..k])
    && forall j :: 0 <= j < i ==>
         ancestors[j] in known || (ancestors[j] in Refs(list[..k]) && !Hopeless(u, init, ancestors[j]))
  }

  lemma PrefixRefs(list: seq<VerifiedBlock>, k: nat)
    requires k < |list| && Distinct(list)
    ensures Refs(list[..k + 1]) == Refs(list[..k]) + {list[k].ref} && list[k].ref !in Refs(list[..k])
    ensures list[k].ref in Refs(list)
  {
    assert list[..k + 1] == list[..k] + [list[k]];
    RefsConcat(list[..k], [list[k]]);
    assert [list[k]][0].ref in Refs([list[k]]);
  }

  /** The first unfound ancestor is rejected, or lost: what is released earlier is found exactly
      when it is not hopeless. */
  lemma LostMeansLost(u: Dag, init: set<BlockRef>, dag: Dag, accept: Dag, reject: set<BlockRef>, list: seq<VerifiedBlock>, k: nat)
    requires Universe(u) && k < |list| && AcceptedDag(u, dag + accept) && AllHopeless(u, init, reject)
    requires accept.Keys + reject == Refs(list[..k])
    ensures LostAt(u, init, dag.Keys, list, k) <==> HasLost(list[k].block, dag.Keys + accept.Keys, reject)
  {
    var ancestors := list[k].block.ancestors;
    forall r | r in accept ensures !Hopeless(u, init, r) {
      AcceptedIsNotHopeless(u, init, dag + accept, r);
    }
    if i: nat :| LostAncestor(u, init, dag.Keys, list, k, i) {
      assert FirstUnfound(list[k].block, dag.Keys + accept.Keys, i);
    }
    if i: nat :| FirstUnfound(list[k].block, dag.Keys + accept.Keys, i) && ancestors[i] !in reject {
      assert LostAncestor(u, init, dag.Keys, list, k, i);
    }
  }

  lemma RejectIsHopeless(u: Dag, init: set<BlockRef>, dag: Dag, accept: Dag, reject: set<BlockRef>, b: VerifiedBlock)
    requires Universe(u) && AcceptedDag(u, dag + accept) && AllHopeless(u, init, reject)
    requires Known(u, b) && b.ref !in init
    requires HasBadAncestor(b.block, dag + accept, reject)
    ensures AllHopeless(u, init, reject + {b.ref})
    ensures NoLateAncestors(u) ==> reject != {}
  {
    var a :| a in Parents(b.block) &&
             (a in reject || (a in dag + accept && (dag + accept)[a].timestampMs > b.block.timestampMs));
    assert a in dag + accept ==> AcceptedEntry(u, dag + accept, a);
    HopelessBecause(u, init, b.ref, a);
  }

  /** Suspended blocks are filed under their own reference. */
  ghost predicate Named(suspended: Suspensions) {
    forall r :: r in suspended ==> suspended[r].block.ref == r
  }

  ghost predicate FromMap(suspended: Suspensions, blocks: seq<VerifiedBlock>) {
    forall i :: 0 <= i < |blocks| ==> blocks[i].ref in suspended && suspended[blocks[i].ref].block == blocks[i]
  }

  /** Half-way through the waiters of q. */
  ghost function PartlyReleased(suspended: Suspensions, q: BlockRef, done: set<BlockRef>): Suspensions {
    map r | r in suspended && !(r in done && suspended[r].missing == {q}) ::
      if r in done then suspended[r].(missing := suspended[r].missing - {q}) else suspended[r]
  }

  ghost function PartlyFreed(suspended: Suspensions, q: BlockRef, done: set<BlockRef>): set<BlockRef> {
    set r | r in suspended && r in done && suspended[r].missing == {q}
  }

  lemma PartialStep(suspended: Suspensions, waiters: Waiters, q: BlockRef, done: set<BlockRef>, r: BlockRef)
    requires Consistent(suspended, waiters) && q in waiters && r in waiters[q] && r !in done
    ensures r in suspended && q in suspended[r].missing
    ensures var now, next := PartlyReleased(suspended, q, done), PartlyReleased(suspended, q, done + {r});
            && r in now && now[r] == suspended[r]
            && next == if now[r].missing == {q} then now - {r} else now[r := now[r].(missing := now[r].missing - {q})]
    ensures PartlyFreed(suspended, q, done + {r})
         == PartlyFreed(suspended, q, done) + if suspended[r].missing == {q} then {r} else {}
    ensures r !in PartlyFreed(suspended, q, done)
  {
    assert r in suspended && q in suspended[r].missing;
    var now, next := PartlyReleased(suspended, q, done), PartlyReleased(suspended, q, done + {r});
    if now[r].missing == {q} {
      assert next == now - {r};
    } else {
      assert next == now[r := now[r].(missing := now[r].missing - {q})];
    }
  }

  lemma FreedSnoc(suspended: Suspensions, freed: seq<VerifiedBlock>, b: VerifiedBlock)
    requires Distinct(freed) && FromMap(suspended, freed) && b.ref !in Refs(freed)
    requires b.ref in suspended && suspended[b.ref].block == b
    ensures Refs(freed + [b]) == Refs(freed) + {b.ref} && Distinct(freed + [b]) && FromMap(suspended, freed + [b])
  {
    RefsConcat(freed, [b]);
    assert [b][0].ref in Refs([b]);
    assert Refs([b]) == {b.ref};
    DistinctConcat(freed, [b]);
  }

  lemma NothingReleased(suspended: Suspensions, waiters: Waiters, q: BlockRef)
    requires Consistent(suspended, waiters)
    ensures PartlyReleased(suspended, q, {}) == suspended && PartlyFreed(suspended, q, {}) == {}
    ensures Refs([]) == {} && Distinct([]) && FromMap(suspended, [])
    ensures q !in waiters ==> Released(suspended, {q}) == suspended && Freed(suspended, {q}) == {} && waiters - {q} == waiters
  {
    assert PartlyReleased(suspended, q, {}) == suspended;
    if q !in waiters {
      forall r | r in suspended ensures q !in suspended[r].missing && suspended[r].missing - {q} == suspended[r].missing {
      }
      assert Released(suspended, {q}) == suspended;
      assert waiters - {q} == waiters;
    }
  }

  lemma AllReleased(suspended: Suspensions, waiters: Waiters, q: BlockRef)
    requires Consistent(suspended, waiters) && q in waiters
    ensures PartlyReleased(suspended, q, waiters[q]) == Released(suspended, {q})
    ensures PartlyFreed(suspended, q, waiters[q]) == Freed(suspended, {q})
  {
    forall r | r in suspended
      ensures r in waiters[q] <==> q in suspended[r].missing
      ensures suspended[r].missing <= {q} <==> suspended[r].missing == {q}
      ensures q !in suspended[r].missing ==> suspended[r].missing - {q} == suspended[r].missing
    {
      assert r in waiters[q] ==> q in suspended[r].missing;
    }
    assert PartlyReleased(suspended, q, waiters[q]) == Released(suspended, {q});
  }

  lemma StartRelease(suspended: Suspensions, waiters: Waiters)
    requires Consistent(suspended, waiters)
    ensures Released(suspended, {}) == suspended && Freed(suspended, {}) == {} && waiters - {} == waiters && Refs([]) == {}
  {
    forall r | r in suspended ensures suspended[r].missing - {} == suspended[r].missing {
    }
    assert Released(suspended, {}) == suspended;
    assert waiters - {} == waiters;
  }

  lemma PopRefs(stack: seq<VerifiedBlock>)
    requires stack != [] && Distinct(stack)
    ensures var n := |stack| - 1;
            && Refs(stack[..n]) == Refs(stack) - {stack[n].ref} && stack[n].ref in Refs(stack) && Distinct(stack[..n])
  {
    var n := |stack| - 1;
    forall r | r in Refs(stack) && r != stack[n].ref ensures r in Refs(stack[..n]) {
      var i :| 0 <= i < |stack| && stack[i].ref == r;
      assert stack[..n][i].ref == r;
    }
  }

  /** What releasing the children of one more block does to the cascade. */
  lemma CascadeStep(start: Suspensions, waiters: Waiters, done: set<BlockRef>, before: Suspensions,
                    q: BlockRef, first: BlockRef, unsuspended: seq<VerifiedBlock>, freed: seq<VerifiedBlock>)
    requires Consistent(start, waiters) && Named(start) && first !in start && before == Released(start, done)
    requires Refs(unsuspended) == Freed(start, done) && Distinct(unsuspended)
    requires CausalOrder(start, first, unsuspended)
    requires q in {first} + Refs(unsuspended) && q !in done && done <= {first} + Refs(unsuspended)
    requires Refs(freed) == Freed(before, {q}) && Distinct(freed) && FromMap(before, freed)
    ensures Released(before, {q}) == Released(start, done + {q})
    ensures Freed(start, done + {q}) == Refs(unsuspended) + Refs(freed)
    ensures first !in Refs(freed) && Refs(unsuspended) !! Refs(freed) && Distinct(unsuspended + freed)
    ensures CausalOrder(start, first, unsuspended + freed)
    ensures Named(Released(before, {q}))
    ensures freed != [] ==> Released(before, {q}).Keys < before.Keys
    ensures Released(before, {q}).Keys <= before.Keys
    ensures waiters - done - {q} == waiters - (done + {q})
  {
    ReleaseStep(start, done, q);
    DistinctConcat(unsuspended, freed);
    forall i | 0 <= i < |freed|
      ensures freed[i].ref in start && start[freed[i].ref].block == freed[i]
      ensures start[freed[i].ref].missing <= {first} + Refs(unsuspended)
    {
      assert freed[i].ref in Refs(freed);
    }
    CausalOrderExtends(start, first, unsuspended, freed);
    if freed != [] { assert freed[0].ref in Refs(freed); }
    assert waiters - done - {q} == waiters - (done + {q});
  }

  ghost function MissingAmong(ancestors: seq<BlockRef>, n: nat, dag: Dag): set<BlockRef>
    requires n <= |ancestors|
  {
    set i | 0 <= i < n && ancestors[i] !in dag :: ancestors[i]
  }

  lemma MissingAmongSteps(ancestors: seq<BlockRef>, dag: Dag)
    ensures MissingAmong(ancestors, 0, dag) == {}
    ensures forall i :: 0 <= i < |ancestors| ==>
              MissingAmong(ancestors, i + 1, dag) == MissingAmong(ancestors, i, dag) + if ancestors[i] !in dag then {ancestors[i]} else {}
  {
  }

  lemma MissingIsLacking(b: Block, dag: Dag)
    ensures MissingAmong(b.ancestors, |b.ancestors|, dag) == Parents(b) - dag.Keys
    ensures MissingAmong(b.ancestors, |b.ancestors|, dag) == {} <==> Parents(b) <= dag.Keys
  {
    assert MissingAmong(b.ancestors, |b.ancestors|, dag) == Parents(b) - dag.Keys;
    if Parents(b) - dag.Keys == {} {
      forall a | a in Parents(b) ensures a in dag {
        assert a !in Parents(b) - dag.Keys;
      }
    }
  }

  lemma AddNoWaiter(waiters: Waiters, r: BlockRef)
    ensures AddWaiter(waiters, {}, r) == waiters
  {
    var same := AddWaiter(waiters, {}, r);
    assert same.Keys == waiters.Keys;
    forall a | a in waiters ensures same[a] == waiters[a] {
    }
  }

  lemma AddWaiterStep(waiters: Waiters, missing: set<BlockRef>, r: BlockRef, a: BlockRef)
    ensures var now := AddWaiter(waiters, missing, r);
            AddWaiter(waiters, missing + {a}, r) == now[a := (if a in now then now[a] else {}) + {r}]
  {
    var now, next := AddWaiter(waiters, missing, r), AddWaiter(waiters, missing + {a}, r);
    var other := now[a := (if a in now then now[a] else {}) + {r}];
    assert next.Keys == other.Keys;
    forall x | x in next ensures next[x] == other[x] {
    }
  }

  lemma SomebodyWaits(suspended: Suspensions, waiters: Waiters, r: BlockRef) returns (x: BlockRef)
    requires Consistent(suspended, waiters) && r in waiters
    ensures x in suspended && r in suspended[x].missing
  {
    x :| x in waiters[r];
  }

  lemma AcceptedIsNotAwaited(u: Dag, dag: Dag, rejected: set<BlockRef>, suspended: Suspensions, waiters: Waiters, r: BlockRef)
    requires SuspendedOk(u, dag, rejected, suspended) && Consistent(suspended, waiters) && r in dag
    ensures r !in waiters
  {
    hide SuspendedOk;
    hide Consistent;
    if r in waiters {
      var x := SomebodyWaits(suspended, waiters, r);
      EntryOf(u, dag, rejected, suspended, x);
    }
  }

  lemma RedeliverKeepsInvariant(u: Dag, init: set<BlockRef>, dag: Dag, suspended: Suspensions, waiters: Waiters,
                                missing: set<BlockRef>, rejected: set<BlockRef>, delivered: set<BlockRef>, r: BlockRef)
    requires Invariant(u, init, dag, suspended, waiters, missing, rejected, delivered) && (r in suspended || r in dag)
    ensures Invariant(u, init, dag, suspended, waiters, missing, rejected, delivered + {r}) && r !in missing
  {
    hide AcceptedDag;
    hide AllHopeless;
    if r in dag { AcceptedIsNotAwaited(u, dag, rejected, suspended, waiters, r); }
    assert r in dag.Keys + suspended.Keys + rejected + init;
    assert delivered + {r} + init == delivered + init + {r};
  }

  lemma SuspendKeepsInvariant(u: Dag, init: set<BlockRef>, dag: Dag, suspended: Suspensions, waiters: Waiters,
                              missing: set<BlockRef>, rejected: set<BlockRef>, delivered: set<BlockRef>, b: VerifiedBlock)
    requires Invariant(u, init, dag, suspended, waiters, missing, rejected, delivered)
    requires Known(u, b) && b.ref !in suspended && b.ref !in dag && !(Parents(b.block) <= dag.Keys)
    ensures var lacks := Parents(b.block) - dag.Keys;
            Invariant(u, init, dag, suspended[b.ref := SuspendedBlock(b, lacks)], AddWaiter(waiters, lacks, b.ref),
                      missing + (lacks - suspended.Keys) - {b.ref}, rejected, delivered + {b.ref})
  {
    hide AcceptedDag;
    hide AllHopeless;
    hide Consistent;
    hide SuspendedEntry;
    hide Universe;
    hide Known;
    hide Parents;
    var lacks := Parents(b.block) - dag.Keys;
    var suspended', waiters' := suspended[b.ref := SuspendedBlock(b, lacks)], AddWaiter(waiters, lacks, b.ref);
    SuspendKeepsConsistent(suspended, waiters, b, lacks);
    NewEntry(u, dag, rejected, b);
    assert waiters'.Keys == waiters.Keys + lacks && suspended'.Keys == suspended.Keys + {b.ref};
    assert missing + (lacks - suspended.Keys) - {b.ref} == waiters'.Keys - suspended'.Keys;
    assert delivered + {b.ref} + init == dag.Keys + suspended'.Keys + rejected + init;
  }

  lemma NewEntry(u: Dag, dag: Dag, rejected: set<BlockRef>, b: VerifiedBlock)
    requires Known(u, b) && b.ref !in dag
    ensures SuspendedEntry(u, dag, rejected, b.ref, SuspendedBlock(b, Parents(b.block) - dag.Keys))
  {
  }

  lemma SuspendKeepsConsistent(suspended: Suspensions, waiters: Waiters, b: VerifiedBlock, lacks: set<BlockRef>)
    requires Consistent(suspended, waiters) && b.ref !in suspended && lacks != {}
    ensures Consistent(suspended[b.ref := SuspendedBlock(b, lacks)], AddWaiter(waiters, lacks, b.ref))
  {
    var suspended', waiters' := suspended[b.ref := SuspendedBlock(b, lacks)], AddWaiter(waiters, lacks, b.ref);
    forall r, a | r in suspended' && a in suspended'[r].missing ensures a in waiters' && r in waiters'[a] {
      if r != b.ref { assert a in waiters && r in waiters[a]; }
    }
    forall a, r | a in waiters' && r in waiters'[a] ensures r in suspended' && a in suspended'[r].missing {
      if r != b.ref { assert a in waiters && r in waiters[a]; }
    }
  }
}
