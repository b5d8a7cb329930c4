/** How far support for a leader block carries over to later blocks of the same author. */
module Equivocation {
  import opened Committees
  import opened Blocks
  import opened BlockVerifier
  import opened Dags
  import opened CommitRule
  import opened CommitSafety

  /** Whenever a block of the author includes an earlier one that supports a block of some slot, it
      supports that same block. */
  ghost predicate KeepsSupport(u: Dag, author: nat)
    requires Causal(u)
  {
    forall slot: Slot, later, earlier ::
      && later in u && earlier in u && later.author == author && earlier.author == author
      && Reaches(u, later, earlier) && Supported(u, slot, earlier).Some?
      ==> Supported(u, slot, later) == Supported(u, slot, earlier)
  }

  ghost predicate AlwaysKeepsSupport(c: Committee, byzantine: set<nat>, author: nat) {
    forall ctx: Context, u :: ctx.committee == c && BftUniverse(ctx, u, byzantine) ==> KeepsSupport(u, author)
  }

  /** In every committee and for every set of faulty authorities: an author keeps its support in all
      universes exactly when it is not one of them. */
  lemma KeepsSupportExactly(c: Committee, byzantine: set<nat>, author: nat)
    requires c.WellFormed() && c.IsValidIndex(author) && !c.ReachedValidity(c.StakeOf(byzantine))
    ensures AlwaysKeepsSupport(c, byzantine, author) <==> author !in byzantine
  {
    hide KeepsSupport;
    hide CausalEntry;
    hide ValidEntry;
    if author !in byzantine {
      forall ctx: Context, u | ctx.committee == c && BftUniverse(ctx, u, byzantine) ensures KeepsSupport(u, author) {
        CorrectKeepsSupport(ctx, u, byzantine, author);
      }
    } else {
      TwoFacedIsBft(c, byzantine, author);
      TwoFacedChanges(c, byzantine, author);
    }
  }

  lemma UniverseIsCausal(ctx: Context, u: Dag, byzantine: set<nat>)
    requires BftUniverse(ctx, u, byzantine)
    ensures Causal(u)
  {
  }

  lemma CorrectKeepsSupport(ctx: Context, u: Dag, byzantine: set<nat>, author: nat)
    requires BftUniverse(ctx, u, byzantine) && author !in byzantine
    ensures KeepsSupport(u, author)
  {
    forall slot: Slot, later, earlier |
      && later in u && earlier in u && later.author == author && earlier.author == author
      && Reaches(u, later, earlier) && Supported(u, slot, earlier).Some?
      ensures Supported(u, slot, later) == Supported(u, slot, earlier)
    {
      ChainKeepsSupport(ctx, u, slot, later, earlier);
    }
  }

  /** An author whose blocks each link first to its previous one never changes its support,
      however the earlier block is included. */
  lemma ChainKeepsSupport(ctx: Context, d: Dag, slot: Slot, later: BlockRef, earlier: BlockRef)
    requires ValidDag(ctx, d) && later in d && earlier in d && later.author == earlier.author && OwnChain(d, later.author)
    requires Reaches(d, later, earlier) && Supported(d, slot, earlier).Some?
    ensures Supported(d, slot, later) == Supported(d, slot, earlier)
  {
    ReachesDown(d, later, earlier);
    ChainReaches(ctx, d, earlier, later);
    SupportPersists(d, slot, later, earlier);
  }

  // ---------------------------------------------------------------- an author that equivocates

  function At(round: nat, i: nat): BlockRef { BlockRef(round, i, 0) }

  /** Author a makes two blocks in round 1. Its block of round 2 links first to the one and its
      block of round 4 to the other. All others reference each other, and in round 3 also the
      block that a made in round 2. */
  function Left(a: nat): BlockRef { BlockRef(1, a, 0) }
  function Right(a: nat): BlockRef { BlockRef(1, a, 1) }
  function Early(a: nat): BlockRef { BlockRef(2, a, 0) }
  function Late(a: nat): BlockRef { BlockRef(4, a, 0) }

  /** The blocks of one round by the first n authorities without a and i. */
  function Peers(round: nat, n: nat, a: nat, i: nat): seq<BlockRef> {
    if n == 0 then [] else Peers(round, n - 1, a, i) + if n - 1 == a || n - 1 == i then [] else [At(round, n - 1)]
  }

  lemma {:induction false} PeersShape(round: nat, n: nat, a: nat, i: nat)
    ensures |Peers(round, n, a, i)| + (if a < n then 1 else 0) + (if i < n && i != a then 1 else 0) == n
    ensures forall k :: 0 <= k < |Peers(round, n, a, i)| ==> IsPeer(Peers(round, n, a, i)[k], round, n, a, i)
    ensures forall k, l :: 0 <= k < l < |Peers(round, n, a, i)| ==> Peers(round, n, a, i)[k].author < Peers(round, n, a, i)[l].author
  {
    if n > 0 {
      PeersShape(round, n - 1, a, i);
      var q, p := Peers(round, n - 1, a, i), Peers(round, n, a, i);
      forall k | 0 <= k < |p| ensures IsPeer(p[k], round, n, a, i) {
        if k < |q| { assert p[k] == q[k] && IsPeer(q[k], round, n - 1, a, i); }
      }
      forall k, l | 0 <= k < l < |p| ensures p[k].author < p[l].author {
        assert p[k] == q[k] && IsPeer(q[k], round, n - 1, a, i);
        if l < |q| { assert p[l] == q[l]; }
      }
    }
  }

  predicate IsPeer(r: BlockRef, round: nat, n: nat, a: nat, i: nat) {
    r == At(round, r.author) && r.author < n && r.author != a && r.author != i
  }

  lemma {:induction false} PeerListed(round: nat, n: nat, a: nat, i: nat, j: nat) returns (k: nat)
    requires j < n && j != a && j != i
    ensures k < |Peers(round, n, a, i)| && Peers(round, n, a, i)[k] == At(round, j)
  {
    if j == n - 1 { k := |Peers(round, n - 1, a, i)|; } else { k := PeerListed(round, n - 1, a, i, j); }
  }

  function OwnPrevious(a: nat, r: BlockRef): BlockRef {
    if r.author == a && r.round == 4 then Right(a) else if r.round == 0 then r else At(r.round - 1, r.author)
  }

  function AncestorsOf(n: nat, a: nat, r: BlockRef): seq<BlockRef> {
    if r.round == 0 then []
    else
      [OwnPrevious(a, r)] + Peers(r.round - 1, n, a, r.author)
      + if r.round == 3 && r.author != a then [Early(a)] else []
  }

  function BlockOf(c: Committee, a: nat, r: BlockRef): Block {
    Block(c.epoch, r.round, r.author, 0, AncestorsOf(c.Size(), a, r), [], r.digest)
  }

  predicate InTwoFaced(n: nat, a: nat, r: BlockRef) {
    || (r.author < n && r.author != a && r.round <= 3 && r.digest == 0)
    || r == At(0, a) || r == Left(a) || r == Right(a) || r == Early(a) || r == Late(a)
  }

  function TwoFaced(c: Committee, a: nat): Dag {
    var refs := (set round, i | 0 <= round <= 3 && 0 <= i < c.Size() && i != a :: At(round, i))
                + {At(0, a), Left(a), Right(a), Early(a), Late(a)};
    map r | r in refs :: BlockOf(c, a, r)
  }

  lemma Members(c: Committee, a: nat, r: BlockRef)
    ensures r in TwoFaced(c, a) <==> InTwoFaced(c.Size(), a, r)
    ensures r in TwoFaced(c, a) ==> TwoFaced(c, a)[r] == BlockOf(c, a, r)
  {
    assert r.digest == 0 ==> r == At(r.round, r.author);
  }

  function Setting(c: Committee): Context {
    Context(c, set i | 0 <= i < c.Size() :: At(0, i), _ => true, _ => true)
  }

  ghost function Others(c: Committee, a: nat): set<nat> { set i | 0 <= i < c.Size() && c.IsValidIndex(i) && i != a }

  /** Without a faulty authority there is still a quorum. */
  lemma OthersAreQuorum(c: Committee, byzantine: set<nat>, a: nat)
    requires c.WellFormed() && a in byzantine && !c.ReachedValidity(c.StakeOf(byzantine))
    ensures c.IsQuorum(Others(c, a))
  {
    StakeMonotone(c, {a}, byzantine);
    StakeUnion(c, Others(c, a), {a});
    StakeAtMostTotal(c, Others(c, a) + {a});
    ThresholdsComplement(c);
  }

  ghost predicate Faulty(c: Committee, byzantine: set<nat>, a: nat) {
    c.WellFormed() && c.IsValidIndex(a) && a in byzantine && !c.ReachedValidity(c.StakeOf(byzantine))
  }

  lemma ParentQuorum(c: Committee, byzantine: set<nat>, a: nat, r: BlockRef)
    requires Faulty(c, byzantine, a) && InTwoFaced(c.Size(), a, r) && r.round > 0
    ensures c.IsQuorum(BlockOf(c, a, r).ParentAuthors())
  {
    var b, p := BlockOf(c, a, r), Peers(r.round - 1, c.Size(), a, r.author);
    forall j | j in Others(c, a) ensures j in b.ParentAuthors() {
      if j == r.author {
        assert b.ancestors[0] == At(r.round - 1, j);
      } else {
        var k := PeerListed(r.round - 1, c.Size(), a, r.author, j);
        assert b.ancestors[k + 1] == At(r.round - 1, j);
      }
    }
    OthersAreQuorum(c, byzantine, a);
    StakeMonotone(c, Others(c, a), b.ParentAuthors());
  }

  /** The ancestors, one by one. */
  lemma AncestorAt(n: nat, a: nat, r: BlockRef, i: nat)
    requires a < n && InTwoFaced(n, a, r) && i < |AncestorsOf(n, a, r)|
    ensures var x := AncestorsOf(n, a, r)[i];
            InTwoFaced(n, a, x) && x.author < n && x.round < r.round && (i == 0 <==> x.author == r.author)
    ensures |AncestorsOf(n, a, r)| <= n
  {
    var p := Peers(r.round - 1, n, a, r.author);
    PeersShape(r.round - 1, n, a, r.author);
    assert 0 < i <= |p| ==> IsPeer(p[i - 1], r.round - 1, n, a, r.author);
  }

  lemma AncestorsDiffer(n: nat, a: nat, r: BlockRef, i: nat, j: nat)
    requires a < n && InTwoFaced(n, a, r) && i < j < |AncestorsOf(n, a, r)|
    ensures AncestorsOf(n, a, r)[i].author != AncestorsOf(n, a, r)[j].author
  {
    var p, refs := Peers(r.round - 1, n, a, r.author), AncestorsOf(n, a, r);
    PeersShape(r.round - 1, n, a, r.author);
    assert forall k :: 0 < k <= |p| ==> refs[k] == p[k - 1] && IsPeer(p[k - 1], r.round - 1, n, a, r.author);
  }

  lemma BlockIsValid(c: Committee, byzantine: set<nat>, a: nat, r: BlockRef)
    requires Faulty(c, byzantine, a) && InTwoFaced(c.Size(), a, r) && r.round > 0
    ensures ValidBlock(Setting(c), BlockOf(c, a, r))
  {
    hide Committee.IsQuorum;
    hide Block.ParentAuthors;
    hide AncestorsOf;
    var refs := AncestorsOf(c.Size(), a, r);
    ParentQuorum(c, byzantine, a, r);
    NotEmpty(c.Size(), a, r);
    forall i | 0 <= i < |refs|
      ensures refs[i].author < c.Size() && refs[i].round < r.round && (i == 0 <==> refs[i].author == r.author)
      ensures |refs| <= c.Size() && (refs[i].round == 0 ==> refs[i] in Setting(c).genesis)
    {
      AncestorAt(c.Size(), a, r, i);
      assert refs[i].round == 0 ==> refs[i] == At(0, refs[i].author);
    }
    assert |refs| <= c.Size() by { AncestorAt(c.Size(), a, r, 0); }
    forall i, j | 0 <= i < j < |refs| ensures refs[i].author != refs[j].author { AncestorsDiffer(c.Size(), a, r, i, j); }
  }

  lemma NotEmpty(n: nat, a: nat, r: BlockRef)
    requires r.round > 0
    ensures |AncestorsOf(n, a, r)| > 0 && AncestorsOf(n, a, r)[0] == OwnPrevious(a, r)
  {
  }

  lemma EntryIsValid(c: Committee, byzantine: set<nat>, a: nat, r: BlockRef)
    requires Faulty(c, byzantine, a) && r in TwoFaced(c, a)
    ensures CausalEntry(TwoFaced(c, a), r) && ValidEntry(Setting(c), TwoFaced(c, a), r)
  {
    hide ValidBlock;
    hide TwoFaced;
    var d := TwoFaced(c, a);
    Members(c, a, r);
    var refs := d[r].ancestors;
    forall i | 0 <= i < |refs| ensures refs[i] in d && refs[i].round < r.round {
      AncestorAt(c.Size(), a, r, i);
      Members(c, a, refs[i]);
    }
    if r.round > 0 { BlockIsValid(c, byzantine, a, r); } else { assert r == At(0, r.author); }
  }

  lemma OthersFollow(c: Committee, byzantine: set<nat>, a: nat, r: BlockRef, s: BlockRef)
    requires Faulty(c, byzantine, a) && r in TwoFaced(c, a) && s in TwoFaced(c, a)
    requires r.author == s.author != a && r.round <= s.round
    ensures FollowsOwn(TwoFaced(c, a), r, s)
  {
    hide TwoFaced;
    hide AncestorsOf;
    Members(c, a, r);
    Members(c, a, s);
    if r.round < s.round { NotEmpty(c.Size(), a, s); }
  }

  lemma TwoFacedIsBft(c: Committee, byzantine: set<nat>, a: nat)
    requires Faulty(c, byzantine, a)
    ensures BftUniverse(Setting(c), TwoFaced(c, a), byzantine)
  {
    hide TwoFaced;
    hide CausalEntry;
    hide ValidEntry;
    hide FollowsOwn;
    var u, ctx := TwoFaced(c, a), Setting(c);
    forall r | r in u ensures CausalEntry(u, r) && ValidEntry(ctx, u, r) { EntryIsValid(c, byzantine, a, r); }
    forall r, s | r in u && s in u && r.author == s.author && r.author !in byzantine && r.round <= s.round ensures FollowsOwn(u, r, s) {
      OthersFollow(c, byzantine, a, r, s);
    }
  }

  /** The later block of a includes the earlier one and supports the other block of round 1. */
  lemma TwoFacedChanges(c: Committee, byzantine: set<nat>, a: nat)
    requires Faulty(c, byzantine, a)
    ensures Causal(TwoFaced(c, a)) && Early(a) in TwoFaced(c, a) && Late(a) in TwoFaced(c, a)
    ensures Reaches(TwoFaced(c, a), Late(a), Early(a))
    ensures Supported(TwoFaced(c, a), Slot(1, a), Early(a)) == Some(Left(a))
    ensures Supported(TwoFaced(c, a), Slot(1, a), Late(a)) == Some(Right(a))
    ensures !KeepsSupport(TwoFaced(c, a), a)
  {
    hide TwoFaced;
    hide AncestorsOf;
    hide BftUniverse;
    var u := TwoFaced(c, a);
    TwoFacedIsBft(c, byzantine, a);
    UniverseIsCausal(Setting(c), u, byzantine);
    Members(c, a, Early(a));
    Members(c, a, Late(a));
    NotEmpty(c.Size(), a, Early(a));
    NotEmpty(c.Size(), a, Late(a));
    OthersAreQuorum(c, byzantine, a);
    var b := QuorumNotEmpty(c, Others(c, a));
    LinkThrough(c, byzantine, a, b);
  }

  lemma LinkThrough(c: Committee, byzantine: set<nat>, a: nat, b: nat)
    requires Faulty(c, byzantine, a) && b in Others(c, a) && Causal(TwoFaced(c, a))
    ensures Late(a) in TwoFaced(c, a) && Reaches(TwoFaced(c, a), Late(a), Early(a))
  {
    hide TwoFaced;
    var u := TwoFaced(c, a);
    Members(c, a, Late(a));
    Members(c, a, At(3, b));
    Members(c, a, Early(a));
    var k := PeerListed(3, c.Size(), a, a, b);
    assert u[Late(a)].ancestors[k + 1] == At(3, b);
    var refs := u[At(3, b)].ancestors;
    assert refs[|refs| - 1] == Early(a);
    assert Reaches(u, Early(a), Early(a));
    assert Reaches(u, At(3, b), Early(a));
  }
}
