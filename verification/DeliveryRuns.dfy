/** Two runs of the block manager on blocks that pass verification: one ends in its panic, the
    other one returns blocks whose rounds do not ascend. */
module DeliveryRuns {
  import opened Committees
  import opened Blocks
  import opened BlockVerifier
  import opened Dags
  import opened BlockTracking
  import opened BlockManager
  import opened AcceptedViews
  import StableSort

  // ---------------------------------------------------------------- the blocks

  /** Authority 0 holds all the stake, so its blocks alone make a quorum. */
  const SOLE: Committee := Committee(0, [1, 0, 0])

  const G0 := BlockRef(0, 0, 0)
  const G1 := BlockRef(0, 1, 0)
  const G2 := BlockRef(0, 2, 0)
  const X := BlockRef(1, 0, 0)
  const V := BlockRef(1, 1, 0)
  const Y := BlockRef(2, 0, 0)
  const B := BlockRef(2, 1, 0)
  const C := BlockRef(3, 2, 0)

  const INIT: set<BlockRef> := {G0, G1, G2}
  const ALL: set<BlockRef> := INIT + {X, V, Y, B, C}

  function AncestorsOf(r: BlockRef): seq<BlockRef> {
    if r == X then [G0]
    else if r == V then [G1, G0]
    else if r == Y then [X]
    else if r == B then [G1, X]
    else if r == C then [G2, B, Y]
    else []
  }

  /** B is earlier than X, which it references. */
  function TimeOf(r: BlockRef): nat {
    if r == X then 10 else if r == V then 1 else if r == Y then 12 else if r == B then 5 else if r == C then 20 else 0
  }

  function BlockOf(r: BlockRef): Block { Block(0, r.round, r.author, TimeOf(r), AncestorsOf(r), [], 0) }

  function LateParent(): Dag { map r | r in ALL :: BlockOf(r) }

  function Of(r: BlockRef): VerifiedBlock { VerifiedBlock(r, BlockOf(r)) }

  function ParentsOf(r: BlockRef): set<BlockRef> {
    if r == X then {G0}
    else if r == V then {G0, G1}
    else if r == Y then {X}
    else if r == B then {G1, X}
    else if r == C then {G2, B, Y}
    else {}
  }

  lemma ParentsAre(r: BlockRef)
    ensures Parents(BlockOf(r)) == ParentsOf(r)
  {
    var refs := AncestorsOf(r);
    assert |refs| > 0 ==> refs[0] in Parents(BlockOf(r));
    assert |refs| > 1 ==> refs[1] in Parents(BlockOf(r));
    assert |refs| > 2 ==> refs[2] in Parents(BlockOf(r));
  }

  lemma TheUniverse()
    ensures Universe(LateParent()) && (forall r :: r in LateParent() <==> r in ALL) && forall r :: r in ALL ==> Known(LateParent(), Of(r))
  {
    hide AncestorsOf;
    hide TimeOf;
    forall r | r in ALL ensures forall a :: a in Parents(BlockOf(r)) ==> a.round < r.round { ParentsAre(r); }
  }

  function Setting(): Context { Context(SOLE, INIT, _ => true, _ => true) }

  lemma SoleQuorum(s: set<nat>)
    requires 0 in s
    ensures Setting().WellFormed() && SOLE.IsQuorum(s)
  {
    var x := SOLE.stakes;
    assert x[..2][..1] == x[..1] && x[..1][..0] == [];
    assert Sum(x[..1]) == 1;
    assert Sum(x[..2]) == 1;
    assert StakeBelow(x, s, 1) == 1;
    assert StakeBelow(x, s, 2) == 1;
  }

  lemma ParentQuorum(r: BlockRef)
    requires r in {X, V, Y, B, C}
    ensures SOLE.IsQuorum(BlockOf(r).ParentAuthors())
  {
    var b := BlockOf(r);
    var i := if r == C then 2 else if r == V || r == B then 1 else 0;
    assert b.ancestors[i].round + 1 == b.round && b.ancestors[i].author == 0;
    SoleQuorum(b.ParentAuthors());
  }

  lemma GoodBlock(r: BlockRef)
    requires r in {X, V, Y, B, C}
    ensures ValidBlock(Setting(), BlockOf(r))
  {
    hide Committee.IsQuorum;
    hide Block.ParentAuthors;
    ParentQuorum(r);
  }

  /** All these blocks pass verification: they are blocks that a manager can receive. */
  lemma AllVerified()
    ensures Setting().WellFormed() && OnlyVerified(Setting(), LateParent(), LateParent().Keys)
  {
    hide ValidBlock;
    SoleQuorum({0});
    forall r | r in LateParent() ensures EntryVerified(Setting(), LateParent(), r) {
      if r.round > 0 { GoodBlock(r); }
    }
  }

  // ---------------------------------------------------------------- what can be accepted

  /** X and V can be accepted, Y after X, and B and C never. */
  function CanComplete(delivered: set<BlockRef>): set<BlockRef> {
    INIT + (set r | r in {X, V, Y} && r in delivered && (r == Y ==> X in delivered))
  }

  lemma CompleteStep(delivered: set<BlockRef>, r: BlockRef)
    requires Universe(LateParent())
    ensures Complete(LateParent(), INIT, delivered, r) <==>
              || r in INIT
              || (r in ALL && r in delivered && forall a :: a in ParentsOf(r) ==>
                    TimeOf(a) <= TimeOf(r) && Complete(LateParent(), INIT, delivered, a))
  {
    hide TimeOf;
    hide AncestorsOf;
    TheUniverse();
    ParentsAre(r);
    assert forall a :: a in ParentsOf(r) ==> a in ALL;
  }

  lemma WhatCompletes(delivered: set<BlockRef>, r: BlockRef)
    requires Universe(LateParent())
    ensures Complete(LateParent(), INIT, delivered, r) <==> r in CanComplete(delivered)
  {
    hide Complete;
    hide LateParent;
    CompleteStep(delivered, G0);
    CompleteStep(delivered, G1);
    CompleteStep(delivered, X);
    CompleteStep(delivered, B);
    CompleteStep(delivered, r);
    assert B in ParentsOf(C) && X in ParentsOf(B);
  }

  lemma StateAt(s: State)
    requires Ok(LateParent(), INIT, s)
    ensures s.dag.Keys == CanComplete(s.delivered) && {X, V, Y} !! s.rejected
    ensures s.delivered + INIT == s.dag.Keys + s.suspended.Keys + s.rejected + INIT
  {
    hide Complete;
    hide LateParent;
    hide Universe;
    hide Consistent;
    hide AcceptedDag;
    hide SuspendedOk;
    hide CanComplete;
    forall r ensures r in s.dag <==> r in CanComplete(s.delivered) {
      DagIsComplete(LateParent(), INIT, s.dag, s.suspended, s.waiters, s.missing, s.rejected, s.delivered, r);
      WhatCompletes(s.delivered, r);
    }
    forall r | r in {X, V, Y} ensures r !in s.rejected {
      WhatCompletes({X, V, Y}, r);
      AllComplete(r);
    }
  }

  lemma AllComplete(r: BlockRef)
    requires r in {X, V, Y}
    ensures r in CanComplete({X, V, Y})
  {
  }

  lemma Completions()
    ensures CanComplete({}) == INIT && CanComplete({C}) == INIT && CanComplete({Y}) == INIT
    ensures CanComplete({C, X}) == INIT + {X} && CanComplete({C, X, B}) == INIT + {X}
    ensures CanComplete({Y, X}) == INIT + {X, Y} && CanComplete({Y, X, V}) == INIT + {X, Y, V}
  {
  }

  /** A manager that knows the genesis blocks. */
  method Fresh() returns (m: BlockManager)
    ensures fresh(m) && m.Valid() && m.universe == LateParent() && m.init == INIT && m.dag.Keys == INIT
    ensures m.suspended == map[] && m.delivered == {} && m.rejected == {}
  {
    hide Invariant;
    TheUniverse();
    ParentsAre(G0);
    ParentsAre(G1);
    ParentsAre(G2);
    m := new BlockManager(map r | r in INIT :: BlockOf(r), LateParent());
  }

  // ---------------------------------------------------------------- a run that panics

  /** The only suspension in this run: C, waiting for `missing`. */
  function Only(missing: set<BlockRef>): Suspensions { map[C := SuspendedBlock(Of(C), missing)] }

  lemma OnlyUnlocks(missing: set<BlockRef>, first: BlockRef)
    requires missing <= {B, Y}
    ensures WaitsDown(Only(missing))
    ensures forall r :: Unlocked(Only(missing), first, r) <==> r == C && missing <= {first}
  {
    hide BlockOf;
    var s := Only(missing);
    assert forall r, m :: r in s && m in s[r].missing ==> m.round < r.round;
    forall r ensures Unlocked(s, first, r) <==> r == C && missing <= {first} {
      assert !Unlocked(s, first, B) && !Unlocked(s, first, Y);
    }
  }

  lemma OnlyReleased(missing: set<BlockRef>, first: BlockRef, done: set<BlockRef>)
    requires missing <= {B, Y} && !(missing <= {first}) && first != C && done == {first} + Freed(Only(missing), done)
    ensures Released(Only(missing), done) == Only(missing - {first}) && done == {first}
  {
    hide BlockOf;
    var s := Only(missing);
    assert Freed(s, done) <= {C};
    assert Freed(s, done) == {} by {
      assert C in s && s[C].missing == missing;
    }
    assert missing - done == missing - {first};
    assert Released(s, done) == Only(missing - {first});
  }

  ghost predicate Stage(s: State, missing: set<BlockRef>, rejected: set<BlockRef>, delivered: set<BlockRef>) {
    Ok(LateParent(), INIT, s) && s.suspended == Only(missing) && s.rejected <= rejected && s.delivered == delivered
  }

  /** C arrives first and waits for B and Y. */
  lemma FirstC(s: State, accepted: seq<VerifiedBlock>, s': State)
    requires Completes(LateParent(), INIT, s, Of(C), accepted, s') && s.suspended == map[] && s.delivered == {} && s.rejected == {}
    ensures Stage(s', {B, Y}, {}, {C})
  {
    hide Invariant;
    hide Extends;
    hide LateParent;
    hide BlockOf;
    hide PassPanics;
    hide Freed;
    StateAt(s);
    ParentsAre(C);
    var done :| ReleasedBy(s.dag, s.suspended, Of(C), done) && ReleasedTo(s, Of(C), accepted, s', done);
    assert s.dag.Keys == INIT;
    assert ParentsOf(C) - INIT == {B, Y};
    assert B !in s.dag.Keys;
  }

  /** Then X, which C does not wait for, or B, which is not all that C waits for. */
  lemma ThenOne(s: State, r: BlockRef, missing: set<BlockRef>, accepted: seq<VerifiedBlock>, s': State)
    requires Completes(LateParent(), INIT, s, Of(r), accepted, s') && missing <= {B, Y} && !(missing <= {r})
    requires Stage(s, missing, {}, s.delivered) && s.delivered <= {C, X}
    requires r in {X, B} && r !in s.delivered && (r == B ==> X in s.delivered)
    ensures Stage(s', missing - {r}, {r}, s.delivered + {r})
  {
    hide Invariant;
    hide Extends;
    hide LateParent;
    hide BlockOf;
    hide PassPanics;
    hide Freed;
    StateAt(s);
    ParentsAre(r);
    var done :| ReleasedBy(s.dag, s.suspended, Of(r), done) && ReleasedTo(s, Of(r), accepted, s', done);
    assert ParentsOf(r) <= s.dag.Keys && r !in s.dag.Keys;
    OnlyReleased(missing, r, done);
  }

  lemma NoPanicYet(s: State, r: BlockRef, missing: set<BlockRef>)
    requires missing <= {B, Y} && s.suspended == Only(missing) && !(missing <= {r})
    ensures !PassPanics(LateParent(), INIT, s.dag, s.suspended, Of(r))
  {
    hide Unlocked;
    hide LateParent;
    hide BlockOf;
    hide LosesAncestor;
    OnlyUnlocks(missing, r);
  }

  /** Finally Y: C is released and misses B. */
  lemma YPanics(s: State)
    requires Stage(s, {Y}, {B}, {C, X, B})
    ensures PassPanics(LateParent(), INIT, s.dag, s.suspended, Of(Y)) && NoneReleasedAgain(s.rejected, s.suspended, Y)
  {
    hide Invariant;
    hide LateParent;
    hide CanComplete;
    hide BlockOf;
    hide LosesAncestor;
    hide PassPanics;
    hide NoneReleasedAgain;
    hide Unlocked;
    hide Universe;
    hide WaitsDown;
    hide Only;
    hide Parents;
    TheUniverse();
    Completions();
    StateAt(s);
    CReleased(s.rejected);
    ParentsAre(Y);
    CLosesB(s);
    Panics(s.dag, s.suspended, Y, C);
  }

  lemma CReleased(rejected: set<BlockRef>)
    requires rejected <= {B}
    ensures WaitsDown(Only({Y})) && Unlocked(Only({Y}), Y, C) && Y !in Only({Y}) && NoneReleasedAgain(rejected, Only({Y}), Y)
  {
    hide Unlocked;
    hide BlockOf;
    OnlyUnlocks({Y}, Y);
  }

  lemma Panics(dag: Dag, suspended: Suspensions, first: BlockRef, r: BlockRef)
    requires Universe(LateParent()) && WaitsDown(suspended) && first !in suspended && first !in dag
    requires Parents(BlockOf(first)) <= dag.Keys && Unlocked(suspended, first, r)
    requires LosesAncestor(LateParent(), INIT, dag, suspended[r], first)
    ensures PassPanics(LateParent(), INIT, dag, suspended, Of(first))
  {
    hide LateParent;
    hide BlockOf;
    hide LosesAncestor;
  }

  lemma CLosesB(s: State)
    requires Universe(LateParent()) && s.suspended == Only({Y}) && G2 in s.dag && B !in s.dag
    ensures C in s.suspended && LosesAncestor(LateParent(), INIT, s.dag, s.suspended[C], Y)
  {
    hide LateParent;
    hide Hopeless;
    assert AncestorsOf(C) == [G2, B, Y];
    assert LosesAncestorAt(LateParent(), INIT, s.dag, s.suspended[C], Y, 1);
  }

  /** C, X and B arrive. */
  method ThreeArrive() returns (m: BlockManager, panicked: bool)
    ensures fresh(m) && m.Valid() && m.universe == LateParent() && m.init == INIT
    ensures !panicked && Stage(m.Now(), {Y}, {B}, {C, X, B})
  {
    hide Invariant;
    hide Completes;
    hide PassPanics;
    hide NoLateAncestors;
    hide LateParent;
    hide BlockOf;
    hide Only;
    hide Universe;
    TheUniverse();
    m := Fresh();
    ghost var s := m.Now();
    var accepted, toFetch;
    NothingUnlockedYet(s, Of(C));
    panicked, accepted, toFetch := m.Pass(Of(C));
    FirstC(s, accepted, m.Now());
    s := m.Now();
    assert !({B, Y} <= {X}) && {B, Y} - {X} == {B, Y} && {C} + {X} == {C, X};
    NoPanicYet(s, X, {B, Y});
    panicked, accepted, toFetch := m.Pass(Of(X));
    ThenOne(s, X, {B, Y}, accepted, m.Now());
    s := m.Now();
    NotRejected(s);
    assert !({B, Y} <= {B}) && {B, Y} - {B} == {Y} && {C, X} + {B} == {C, X, B};
    NoPanicYet(s, B, {B, Y});
    panicked, accepted, toFetch := m.Pass(Of(B));
    ThenOne(s, B, {B, Y}, accepted, m.Now());
  }

  lemma NotRejected(s: State)
    requires Stage(s, {B, Y}, {X}, {C, X})
    ensures Stage(s, {B, Y}, {}, {C, X})
  {
    hide Invariant;
    hide LateParent;
    hide CanComplete;
    StateAt(s);
  }

  /** X is accepted. B is rejected: it is earlier than X, and C no longer waits for it. Then Y
      arrives, and C, released, misses B. Every block of the run passes verification. */
  method RejectedAncestorPanics() returns (before: bool, panicked: bool)
    ensures !before && panicked
    ensures Setting().WellFormed() && OnlyVerified(Setting(), LateParent(), LateParent().Keys)
  {
    hide Invariant;
    hide Completes;
    hide PassPanics;
    hide NoneReleasedAgain;
    hide NoLateAncestors;
    hide OnlyVerified;
    hide LateParent;
    hide BlockOf;
    hide Only;
    hide Universe;
    AllVerified();
    TheUniverse();
    var m;
    m, before := ThreeArrive();
    ghost var s := m.Now();
    YPanics(s);
    var accepted, toFetch;
    panicked, accepted, toFetch := m.Pass(Of(Y));
    if !panicked { NotBoth(s, accepted, m.Now()); }
  }

  lemma NothingUnlockedYet(s: State, b: VerifiedBlock)
    requires s.suspended == map[]
    ensures !PassPanics(LateParent(), INIT, s.dag, s.suspended, b)
  {
    hide LateParent;
  }

  lemma NotBoth(s: State, accepted: seq<VerifiedBlock>, s': State)
    requires NoneReleasedAgain(s.rejected, s.suspended, Y) && Completes(LateParent(), INIT, s, Of(Y), accepted, s')
    ensures !PassPanics(LateParent(), INIT, s.dag, s.suspended, Of(Y))
  {
  }

  // ---------------------------------------------------------------- rounds that do not ascend

  /** Only Y waits, for X. */
  lemma WaitingForX(s: State)
    requires Ok(LateParent(), INIT, s) && s.delivered == {Y}
    ensures s.suspended == map[Y := SuspendedBlock(Of(Y), {X})] && s.dag.Keys == INIT
  {
    hide Invariant;
    hide LateParent;
    hide BlockOf;
    hide CanComplete;
    Completions();
    StateAt(s);
    OnlyYLeft(s);
    EntryAt(s, Y);
    ParentsAre(Y);
    YWaits(s.suspended, s.dag.Keys);
  }

  lemma YWaits(suspended: Suspensions, known: set<BlockRef>)
    requires suspended.Keys == {Y} && known == INIT && Parents(BlockOf(Y)) == {X}
    requires suspended[Y].block == Of(Y) && suspended[Y].missing != {} && suspended[Y].missing <= Parents(BlockOf(Y)) - known
    ensures suspended == map[Y := SuspendedBlock(Of(Y), {X})]
  {
    hide BlockOf;
    assert suspended[Y].missing == {X};
  }

  lemma OnlyYLeft(s: State)
    requires Ok(LateParent(), INIT, s) && s.delivered == {Y} && s.dag.Keys == INIT && Y !in s.rejected
    ensures s.suspended.Keys == {Y}
  {
    hide Invariant;
    hide LateParent;
    NotInDag(s);
    assert Y in s.dag.Keys + s.suspended.Keys + s.rejected + INIT by { AccountedFor(s); }
  }

  lemma AccountedFor(s: State)
    requires Ok(LateParent(), INIT, s)
    ensures s.delivered + INIT == s.dag.Keys + s.suspended.Keys + s.rejected + INIT
  {
    hide LateParent;
  }

  lemma EntryAt(s: State, r: BlockRef)
    requires Ok(LateParent(), INIT, s) && r in s.suspended && r in ALL
    ensures s.suspended[r].block == Of(r) && s.suspended[r].missing != {}
    ensures s.suspended[r].missing <= Parents(BlockOf(r)) - s.dag.Keys
  {
    hide LateParent;
    hide BlockOf;
    TheUniverse();
    assert SuspendedEntry(LateParent(), s.dag, s.rejected, r, s.suspended[r]);
  }

  lemma XIsFine(s: State)
    requires Ok(LateParent(), INIT, s) && s.delivered == {Y}
    ensures !PassPanics(LateParent(), INIT, s.dag, s.suspended, Of(X))
  {
    hide Invariant;
    hide LateParent;
    hide Unlocked;
    hide LosesAncestor;
    WaitingForX(s);
    Unpack(LateParent(), INIT, s.dag, s.suspended, s.waiters, s.missing, s.rejected, s.delivered);
    OnlySuspendedUnlock(s.suspended, X);
    YLosesNothing(s);
  }

  lemma OnlySuspendedUnlock(suspended: Suspensions, first: BlockRef)
    requires WaitsDown(suspended)
    ensures forall r :: Unlocked(suspended, first, r) ==> r in suspended
  {
  }

  lemma YLosesNothing(s: State)
    requires Universe(LateParent()) && Y in s.suspended && s.suspended[Y] == SuspendedBlock(Of(Y), {X})
    ensures !LosesAncestor(LateParent(), INIT, s.dag, s.suspended[Y], X)
  {
    hide LateParent;
    hide Hopeless;
    assert AncestorsOf(Y) == [X];
  }

  lemma NothingSuspended(s: State)
    requires Ok(LateParent(), INIT, s) && s.delivered <= {X, V, Y} && (Y in s.delivered ==> X in s.delivered)
    ensures s.suspended == map[]
  {
    hide Invariant;
    hide LateParent;
    StateAt(s);
    NotInDag(s);
    assert forall r :: r in s.suspended.Keys ==> r in {X, V, Y};
  }

  lemma NotInDag(s: State)
    requires Ok(LateParent(), INIT, s)
    ensures s.suspended.Keys !! s.dag.Keys
    ensures forall r :: r in s.suspended ==> r in s.delivered + INIT
  {
    hide LateParent;
    forall r | r in s.suspended ensures r !in s.dag { assert SuspendedEntry(LateParent(), s.dag, s.rejected, r, s.suspended[r]); }
    forall r | r in s.suspended ensures r in s.delivered + INIT {
      assert r in s.dag.Keys + s.suspended.Keys + s.rejected + INIT;
    }
  }

  /** A list in ascending order is determined by what it lists. */
  lemma {:induction false} AscendingIsUnique(xs: seq<VerifiedBlock>, ys: seq<VerifiedBlock>)
    requires Ascending(xs) && Ascending(ys) && (forall b :: b in xs <==> b in ys)
    ensures xs == ys
    decreases |xs|
  {
    hide RefLeq;
    assert (xs == [] || xs[0] in ys) && (ys == [] || ys[0] in xs);
    if xs != [] {
      var i :| 0 <= i < |xs| && xs[i] == ys[0];
      var j :| 0 <= j < |ys| && ys[j] == xs[0];
      FirstOfTwo(xs, ys, i, j);
      forall b ensures b in xs[1..] <==> b in ys[1..] {
        InTail(xs, b);
        InTail(ys, b);
      }
      AscendingIsUnique(xs[1..], ys[1..]);
      assert xs == [xs[0]] + xs[1..] && ys == [ys[0]] + ys[1..];
    }
  }

  lemma FirstOfTwo(xs: seq<VerifiedBlock>, ys: seq<VerifiedBlock>, i: nat, j: nat)
    requires Ascending(xs) && Ascending(ys) && i < |xs| && j < |ys| && xs[i] == ys[0] && ys[j] == xs[0]
    ensures xs[0] == ys[0]
  {
  }

  lemma InTail(xs: seq<VerifiedBlock>, b: VerifiedBlock)
    requires xs != [] && Ascending(xs)
    ensures b in xs[1..] <==> b in xs && b != xs[0]
  {
    if i :| 0 <= i < |xs[1..]| && xs[1..][i] == b { assert xs[i + 1] == b; }
    if i :| 0 < i < |xs| && xs[i] == b { assert xs[1..][i - 1] == b; }
  }

  /** What a pass accepts is the difference of the DAGs, in order. */
  lemma AcceptedIs(s: State, b: VerifiedBlock, accepted: seq<VerifiedBlock>, s': State, list: seq<VerifiedBlock>)
    requires Completes(LateParent(), INIT, s, b, accepted, s') && Ascending(list)
    requires forall x :: x in list <==> x.ref in s'.dag.Keys - s.dag.Keys && x == Of(x.ref)
    ensures accepted == list
  {
    hide Invariant;
    hide Releases;
    hide Ascending;
    hide PassPanics;
    hide LateParent;
    hide BlockOf;
    InUniverse(s');
    forall x ensures x in accepted <==> x in list {
      if x in accepted {
        var i :| 0 <= i < |accepted| && accepted[i] == x;
        assert accepted[i].ref in Refs(accepted);
      }
      if x in list {
        assert x.ref in Refs(accepted);
        var i :| 0 <= i < |accepted| && accepted[i].ref == x.ref;
        assert accepted[i] in accepted;
      }
    }
    AscendingIsUnique(accepted, list);
  }

  lemma InUniverse(s: State)
    requires Ok(LateParent(), INIT, s)
    ensures forall r :: r in s.dag ==> s.dag[r] == BlockOf(r)
  {
    hide LateParent;
    hide BlockOf;
    TheUniverse();
    forall r | r in s.dag ensures s.dag[r] == BlockOf(r) { assert AcceptedEntry(LateParent(), s.dag, r); }
  }

  /** What the two passes do: X brings Y along, then V follows. */
  lemma TwoPasses(passes: seq<seq<VerifiedBlock>>, states: seq<State>)
    requires Passes(LateParent(), INIT, [Of(X), Of(V)], passes, states) && |passes| == 2 && states[0].delivered == {Y}
    ensures Joined(passes) == [Of(X), Of(Y), Of(V)]
  {
    hide Invariant;
    hide Releases;
    hide Extends;
    hide PassPanics;
    hide Joined;
    hide LateParent;
    hide BlockOf;
    hide Ascending;
    hide CanComplete;
    Completions();
    var s, blocks := states, [Of(X), Of(V)];
    assert Completes(LateParent(), INIT, s[0], blocks[0], passes[0], s[1]);
    assert Completes(LateParent(), INIT, s[1], blocks[1], passes[1], s[2]);
    assert s[1].delivered == {Y, X} && s[2].delivered == {Y, X, V};
    StateAt(s[0]);
    StateAt(s[1]);
    StateAt(s[2]);
    TwoLists();
    assert s[1].dag.Keys - s[0].dag.Keys == {X, Y} && s[2].dag.Keys - s[1].dag.Keys == {V};
    AcceptedIs(s[0], Of(X), passes[0], s[1], [Of(X), Of(Y)]);
    AcceptedIs(s[1], Of(V), passes[1], s[2], [Of(V)]);
    JoinedTwo(passes);
  }

  lemma TwoLists()
    ensures Ascending([Of(X), Of(Y)]) && Ascending([Of(V)])
  {
  }

  lemma JoinedTwo(passes: seq<seq<VerifiedBlock>>)
    requires |passes| == 2
    ensures Joined(passes) == passes[0] + passes[1]
  {
    assert passes[..1][..0] == [] && Joined(passes[..1]) == [] + passes[0];
  }

  /** Two blocks of one round are not rearranged. */
  lemma SortedAlready(sorted: seq<VerifiedBlock>)
    requires InRoundOrder([Of(X), Of(V)], sorted)
    ensures sorted == [Of(X), Of(V)]
  {
    hide AncestorsOf;
    StableSort.StableOrderIsUnique(sorted, [Of(X), Of(V)], RoundOf);
  }

  lemma OneSorted(b: VerifiedBlock, sorted: seq<VerifiedBlock>)
    requires InRoundOrder([b], sorted)
    ensures sorted == [b]
  {
    SortKeepsBlocks([b], sorted);
    assert sorted[0] in sorted;
  }

  lemma SecondPass(passes: seq<seq<VerifiedBlock>>, states: seq<State>)
    requires Passes(LateParent(), INIT, [Of(X), Of(V)], passes, states) && |passes| == 1 && states[0].delivered == {Y}
    ensures !PassPanics(LateParent(), INIT, states[1].dag, states[1].suspended, Of(V))
  {
    hide Invariant;
    hide Releases;
    hide Extends;
    hide PassPanics;
    hide LateParent;
    hide BlockOf;
    var blocks := [Of(X), Of(V)];
    assert Completes(LateParent(), INIT, states[0], blocks[0], passes[0], states[1]);
    NothingSuspended(states[1]);
    NothingUnlockedYet(states[1], Of(V));
  }

  /** While Y waits for X, the batch of X and V returns rounds 1, 2, 1. */
  method RoundsGoBack() returns (panicked: bool, accepted: seq<VerifiedBlock>)
    ensures !panicked && accepted == [Of(X), Of(Y), Of(V)] && !RoundsAscend(accepted)
    ensures Setting().WellFormed() && OnlyVerified(Setting(), LateParent(), LateParent().Keys)
  {
    hide Invariant;
    hide PassPanics;
    hide Passes;
    hide Joined;
    hide OnlyVerified;
    hide Extends;
    hide InRoundOrder;
    hide NobodyWaitsForAny;
    hide NoLateAncestors;
    hide AllParents;
    hide RoundsAscend;
    hide LateParent;
    hide BlockOf;
    AllVerified();
    TheUniverse();
    var m := Fresh();
    var missing;
    ghost var sorted, passes, states;
    NothingUnlockedYet(m.Now(), Of(Y));
    panicked, accepted, missing, sorted, passes, states := m.TryAcceptBlocks([Of(Y)]);
    OneSorted(Of(Y), sorted);
    assert Refs([Of(Y)]) == {Y} by { assert [Of(Y)][0].ref in Refs([Of(Y)]); }
    assert {} + {Y} == {Y};
    XIsFine(m.Now());
    panicked, accepted, missing, sorted, passes, states := m.TryAcceptBlocks([Of(X), Of(V)]);
    SortedAlready(sorted);
    if |passes| == 1 { SecondPass(passes, states); }
    assert !panicked;
    TwoPasses(passes, states);
    GoesBack();
  }

  lemma GoesBack()
    ensures !RoundsAscend([Of(X), Of(Y), Of(V)])
  {
    var list := [Of(X), Of(Y), Of(V)];
    assert list[1].ref.round == 2 && list[2].ref.round == 1;
  }
}
