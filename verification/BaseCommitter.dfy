/** The committer as it runs: loops over the blocks of a round, stake aggregators with early
    exits and a shared vote cache. Each method is proved to compute the commit rule. */
module BaseCommitter {
  import opened Committees
  import opened StakeAggregators
  import opened Blocks
  import opened BlockVerifier
  import opened Dags
  import opened CommitRule
  import opened RuleMeaning
  import opened Orders

  // ---------------------------------------------------------------- reading the DAG

  /** Lists a set, each element once, in an unspecified order. */
  method ListOf(s: set<BlockRef>) returns (list: seq<BlockRef>)
    ensures forall r :: r in list <==> r in s
    ensures forall i, j :: 0 <= i < j < |list| ==> list[i] != list[j]
  {
    list := [];
    var rest := s;
    while rest != {}
      invariant forall r :: r in s <==> r in rest || r in list
      invariant forall r :: r in rest ==> r !in list
      invariant forall i, j :: 0 <= i < j < |list| ==> list[i] != list[j]
      decreases |rest|
    {
      var r :| r in rest;
      rest := rest - {r};
      list := list + [r];
    }
  }

  method BlocksAtRound(d: Dag, round: nat) returns (list: seq<BlockRef>)
    ensures forall r :: r in list <==> r in d && r.round == round
    ensures forall i, j :: 0 <= i < j < |list| ==> list[i] != list[j]
  {
    list := ListOf(set r | r in d && r.round == round);
  }

  method BlocksAtSlot(d: Dag, slot: Slot) returns (list: seq<BlockRef>)
    ensures forall r :: r in list <==> r in LeaderBlocks(d, slot)
    ensures forall i, j :: 0 <= i < j < |list| ==> list[i] != list[j]
  {
    list := ListOf(set r | r in d && r.AsSlot() == slot && r.round != GENESIS_ROUND);
  }

  lemma HighestExists(s: set<BlockRef>)
    requires s != {}
    ensures exists r :: r in s && forall x :: x in s ==> x.round <= r.round
  {
    var geq := (r: BlockRef, x: BlockRef) => r.round >= x.round;
    var r := Least(s, geq);
    assert forall x :: x in s ==> geq(r, x);
  }

  /** `linked` lies in the history of `later`, and below it lies all that is still to be found. */
  ghost predicate Frontier(d: Dag, later: BlockRef, earlierRound: nat, linked: set<BlockRef>)
    requires Causal(d) && later in d
  {
    && linked <= d.Keys
    && (forall x :: x in linked ==> Reaches(d, later, x))
    && forall t :: t in d && t.round <= earlierRound && t != later && Reaches(d, later, t)
         ==> exists x :: x in linked && Reaches(d, x, t)
  }

  lemma FrontierStarts(d: Dag, later: BlockRef, earlierRound: nat)
    requires Causal(d) && later in d
    ensures Frontier(d, later, earlierRound, Parents(d[later]))
  {
    assert CausalEntry(d, later);
    var linked := Parents(d[later]);
    forall x | x in linked ensures Reaches(d, later, x) {
      var i :| 0 <= i < |d[later].ancestors| && d[later].ancestors[i] == x;
      assert Reaches(d, d[later].ancestors[i], x);
    }
    forall t | t in d && t != later && Reaches(d, later, t) ensures exists x :: x in linked && Reaches(d, x, t) {
      var i :| 0 <= i < |d[later].ancestors| && Reaches(d, d[later].ancestors[i], t);
      assert d[later].ancestors[i] in linked;
    }
  }

  lemma FrontierMoves(d: Dag, later: BlockRef, earlierRound: nat, linked: set<BlockRef>, r: BlockRef)
    requires Causal(d) && later in d
    requires Frontier(d, later, earlierRound, linked) && r in linked && r.round > earlierRound
    ensures Frontier(d, later, earlierRound, linked - {r} + Parents(d[r]))
    ensures forall x :: x in Parents(d[r]) ==> x.round < r.round
  {
    assert CausalEntry(d, r);
    var linked' := linked - {r} + Parents(d[r]);
    FrontierStarts(d, r, earlierRound);
    forall x | x in Parents(d[r]) ensures Reaches(d, later, x) {
      ReachesTransitive(d, later, r, x);
    }
    forall t | t in d && t.round <= earlierRound && t != later && Reaches(d, later, t)
      ensures exists x :: x in linked' && Reaches(d, x, t)
    {
      var x :| x in linked && Reaches(d, x, t);
      if x == r {
        var y :| y in Parents(d[r]) && Reaches(d, y, t);
        assert y in linked';
      } else {
        assert x in linked';
      }
    }
  }

  /** What has been opened is above, and not among, what is still to be opened. */
  ghost predicate Above(popped: set<BlockRef>, linked: set<BlockRef>) {
    forall p, x :: p in popped && x in linked ==> p.round >= x.round && p != x
  }

  lemma AboveMoves(popped: set<BlockRef>, linked: set<BlockRef>, r: BlockRef, lower: set<BlockRef>)
    requires Above(popped, linked) && r in linked
    requires (forall x :: x in linked ==> x.round <= r.round) && forall x :: x in lower ==> x.round < r.round
    ensures r !in popped && Above(popped + {r}, linked - {r} + lower)
  {
  }

  lemma FrontierDone(d: Dag, later: BlockRef, earlierRound: nat, linked: set<BlockRef>)
    requires Causal(d) && later in d && earlierRound < later.round && Frontier(d, later, earlierRound, linked)
    requires forall x :: x in linked ==> x.round <= earlierRound
    ensures forall r :: r in linked && r.round >= earlierRound
              <==> r in d && r.round == earlierRound && Reaches(d, later, r)
  {
    forall t | t in d && t.round == earlierRound && Reaches(d, later, t) ensures t in linked {
      var x :| x in linked && Reaches(d, x, t);
      ReachesDown(d, x, t);
    }
  }

  /** All blocks of a round in the history of a block, by repeatedly opening the highest one. */
  method AncestorsAtRound(d: Dag, later: BlockRef, earlierRound: nat) returns (found: set<BlockRef>)
    requires Causal(d) && later in d && earlierRound < later.round
    ensures forall r :: r in found <==> r in d && r.round == earlierRound && Reaches(d, later, r)
  {
    var linked := Parents(d[later]);
    ghost var popped: set<BlockRef> := {};
    FrontierStarts(d, later, earlierRound);
    while exists x :: x in linked && x.round > earlierRound
      invariant Frontier(d, later, earlierRound, linked) && popped <= d.Keys
      invariant Above(popped, linked)
      decreases d.Keys - popped
    {
      HighestExists(linked);
      var r :| r in linked && forall x :: x in linked ==> x.round <= r.round;
      FrontierMoves(d, later, earlierRound, linked, r);
      AboveMoves(popped, linked, r, Parents(d[r]));
      linked := linked - {r} + Parents(d[r]);
      popped := popped + {r};
    }
    found := set x | x in linked && x.round >= earlierRound;
    FrontierDone(d, later, earlierRound, linked);
  }

  // ---------------------------------------------------------------- certificates

  /** The cache answers exactly what a fresh search would. */
  ghost predicate CacheOk(d: Dag, leader: BlockRef, cache: map<BlockRef, bool>)
    requires Causal(d)
  {
    forall r :: r in cache ==> r in d && cache[r] == IsVote(d, r, leader)
  }

  ghost function VotersAmong(d: Dag, cert: BlockRef, leader: BlockRef, n: nat): set<nat>
    requires Causal(d) && cert in d && n <= |d[cert].ancestors|
  {
    assert CausalEntry(d, cert);
    set i | 0 <= i < n && IsVote(d, d[cert].ancestors[i], leader) :: d[cert].ancestors[i].author
  }

  lemma VotersStep(d: Dag, cert: BlockRef, leader: BlockRef, i: nat)
    requires Causal(d) && cert in d && i < |d[cert].ancestors|
    requires d[cert].ancestors[i] in d
    ensures VotersAmong(d, cert, leader, i + 1)
         == VotersAmong(d, cert, leader, i) + if IsVote(d, d[cert].ancestors[i], leader) then {d[cert].ancestors[i].author} else {}
    ensures VotersAmong(d, cert, leader, i) <= VoteAuthors(d, cert, leader)
  {
    assert CausalEntry(d, cert);
  }

  /** Whether `cert` certifies `leader`, using and filling a cache of votes for this leader. */
  method CheckCertificate(ctx: Context, d: Dag, cert: BlockRef, leader: BlockRef, cache: map<BlockRef, bool>)
    returns (certifies: bool, cache': map<BlockRef, bool>)
    requires ValidDag(ctx, d) && cert in d && CacheOk(d, leader, cache)
    ensures certifies == IsCertificate(ctx.committee, d, cert, leader)
    ensures CacheOk(d, leader, cache') && cache.Keys <= cache'.Keys
  {
    cache' := cache;
    var votes := new StakeAggregator(Quorum, ctx.committee);
    assert CausalEntry(d, cert) && ValidEntry(ctx, d, cert);
    StakeEmpty(ctx.committee);
    assert VotersAmong(d, cert, leader, 0) == {};
    for i := 0 to |d[cert].ancestors|
      invariant fresh(votes) && votes.Valid(ctx.committee) && votes.threshold == Quorum
      invariant votes.votes == VotersAmong(d, cert, leader, i)
      invariant !ctx.committee.IsQuorum(VotersAmong(d, cert, leader, i))
      invariant CacheOk(d, leader, cache') && cache.Keys <= cache'.Keys
    {
      var reference := d[cert].ancestors[i];
      VotersStep(d, cert, leader, i);
      var isVote: bool;
      if reference in cache' {
        isVote := cache'[reference];
      } else {
        isVote := IsVote(d, reference, leader);
        cache' := cache'[reference := isVote];
      }
      if isVote {
        var reached := votes.Add(reference.author, ctx.committee);
        if reached {
          assert VotersAmong(d, cert, leader, i + 1) <= VoteAuthors(d, cert, leader);
          StakeMonotone(ctx.committee, VotersAmong(d, cert, leader, i + 1), VoteAuthors(d, cert, leader));
          return true, cache';
        }
      }
    }
    assert VotersAmong(d, cert, leader, |d[cert].ancestors|) == VoteAuthors(d, cert, leader);
    return false, cache';
  }

  // ---------------------------------------------------------------- direct rule

  ghost function AuthorsAmong(list: seq<BlockRef>, n: nat): set<nat>
    requires n <= |list|
  {
    set i | 0 <= i < n :: list[i].author
  }

  function TotalStakeOf(c: Committee, list: seq<BlockRef>): nat
    requires forall r :: r in list ==> c.IsValidIndex(r.author)
  {
    if list == [] then 0 else TotalStakeOf(c, list[..|list| - 1]) + c.Stake(list[|list| - 1].author)
  }

  /** Counting equivocating blocks twice can only overestimate. */
  lemma {:induction false} TotalBoundsDistinct(c: Committee, list: seq<BlockRef>)
    requires forall r :: r in list ==> c.IsValidIndex(r.author)
    ensures c.StakeOf(AuthorsAmong(list, |list|)) <= TotalStakeOf(c, list)
  {
    if list == [] {
      assert AuthorsAmong(list, |list|) == {};
      StakeEmpty(c);
    } else {
      var n := |list| - 1;
      TotalBoundsDistinct(c, list[..n]);
      assert AuthorsAmong(list[..n], n) == AuthorsAmong(list, n);
      assert AuthorsAmong(list, |list|) == AuthorsAmong(list, n) + {list[n].author};
      if list[n].author in AuthorsAmong(list, n) {
        assert AuthorsAmong(list, |list|) == AuthorsAmong(list, n);
      } else {
        StakeAdd(c, AuthorsAmong(list, n), list[n].author);
      }
    }
  }

  lemma TotalBoundsSupport(c: Committee, d: Dag, decisionRound: nat, leader: BlockRef, blocks: seq<BlockRef>)
    requires Causal(d) && forall r :: r in blocks <==> r in d && r.round == decisionRound
    requires forall r :: r in blocks ==> c.IsValidIndex(r.author)
    ensures c.StakeOf(CertificateAuthors(c, d, decisionRound, leader)) <= TotalStakeOf(c, blocks)
  {
    var all := CertificateAuthors(c, d, decisionRound, leader);
    forall a | a in all ensures a in AuthorsAmong(blocks, |blocks|) {
      var r :| r in d && r.round == decisionRound && IsCertificate(c, d, r, leader) && r.author == a;
      var i :| 0 <= i < |blocks| && blocks[i] == r;
    }
    StakeMonotone(c, all, AuthorsAmong(blocks, |blocks|));
    TotalBoundsDistinct(c, blocks);
  }

  method SumStakes(c: Committee, list: seq<BlockRef>) returns (total: nat)
    requires forall r :: r in list ==> c.IsValidIndex(r.author)
    ensures total == TotalStakeOf(c, list)
  {
    total := 0;
    for i := 0 to |list|
      invariant total == TotalStakeOf(c, list[..i])
    {
      assert list[..i + 1][..i] == list[..i];
      total := total + c.Stake(list[i].author);
    }
    assert list[..|list|] == list;
  }

  /** Whether 2f+1 of the voting round reference no block of the leader's authority. */
  method EnoughLeaderBlame(ctx: Context, d: Dag, votingRound: nat, authority: nat) returns (enough: bool)
    requires ValidDag(ctx, d) && votingRound > 0
    ensures enough == ctx.committee.IsQuorum(BlameAuthors(d, votingRound, authority))
    ensures enough == ctx.committee.IsQuorum(set r | r in d && r.round == votingRound
                        && (forall k :: 0 <= k < |d[r].ancestors| ==> d[r].ancestors[k].author != authority) :: r.author)
  {
    var blocks := BlocksAtRound(d, votingRound);
    var blames := new StakeAggregator(Quorum, ctx.committee);
    ghost var all := BlameAuthors(d, votingRound, authority);
    assert all == set r | r in d && r.round == votingRound
                    && (forall k :: 0 <= k < |d[r].ancestors| ==> d[r].ancestors[k].author != authority) :: r.author;
    StakeEmpty(ctx.committee);
    for i := 0 to |blocks|
      invariant fresh(blames) && blames.Valid(ctx.committee) && blames.threshold == Quorum
      invariant blames.votes <= all && !ctx.committee.IsQuorum(blames.votes)
      invariant forall j :: 0 <= j < i && IsBlame(d, blocks[j], authority) ==> blocks[j].author in blames.votes
    {
      var r := blocks[i];
      assert ValidEntry(ctx, d, r) && CausalEntry(d, r);
      if forall k :: 0 <= k < |d[r].ancestors| ==> d[r].ancestors[k].author != authority {
        assert IsBlame(d, r, authority) && r.author in all;
        var reached := blames.Add(r.author, ctx.committee);
        if reached {
          StakeMonotone(ctx.committee, blames.votes, all);
          return true;
        }
      }
    }
    assert blames.votes == all;
    return false;
  }

  /** Whether distinct authors with 2f+1 stake hold a certificate of the decision round; quick
      rejection on total stake, shared cache and early exit included. */
  method EnoughLeaderSupport(ctx: Context, d: Dag, decisionRound: nat, leader: BlockRef) returns (enough: bool)
    requires ValidDag(ctx, d) && decisionRound > 0
    ensures enough == EnoughSupport(ctx.committee, d, decisionRound, leader)
  {
    var blocks := BlocksAtRound(d, decisionRound);
    ghost var all := CertificateAuthors(ctx.committee, d, decisionRound, leader);
    forall r | r in blocks ensures ctx.committee.IsValidIndex(r.author) {
      assert ValidEntry(ctx, d, r) && CausalEntry(d, r);
    }
    var total := SumStakes(ctx.committee, blocks);
    if !ctx.committee.ReachedQuorum(total) {
      TotalBoundsSupport(ctx.committee, d, decisionRound, leader, blocks);
      return false;
    }
    var certificates := new StakeAggregator(Quorum, ctx.committee);
    StakeEmpty(ctx.committee);
    var allVotes: map<BlockRef, bool> := map[];
    for i := 0 to |blocks|
      invariant fresh(certificates) && certificates.Valid(ctx.committee) && certificates.threshold == Quorum
      invariant certificates.votes <= all && !ctx.committee.IsQuorum(certificates.votes)
      invariant forall j :: 0 <= j < i && IsCertificate(ctx.committee, d, blocks[j], leader)
                  ==> blocks[j].author in certificates.votes
      invariant CacheOk(d, leader, allVotes)
    {
      var certifies;
      certifies, allVotes := CheckCertificate(ctx, d, blocks[i], leader, allVotes);
      if certifies {
        assert blocks[i].author in all;
        var reached := certificates.Add(blocks[i].author, ctx.committee);
        if reached {
          StakeMonotone(ctx.committee, certificates.votes, all);
          return true;
        }
      }
    }
    assert certificates.votes == all;
    return false;
  }

  /** The last of the collected candidates, or a panic when there are several. */
  method PickLeader(found: seq<BlockRef>, ghost candidates: set<BlockRef>, fallback: LeaderStatus) returns (o: Outcome)
    requires forall r :: r in found <==> r in candidates
    requires forall i, j :: 0 <= i < j < |found| ==> found[i] != found[j]
    ensures o == ChooseLeader(candidates, fallback)
  {
    if |found| > 1 {
      assert {found[0], found[1]} <= candidates;
      if |candidates| <= 1 { assert |{found[0], found[1]}| == 2; Smaller({found[0], found[1]}, candidates); }
      return TwoCertifiedBlocks;
    }
    if |found| == 0 {
      assert candidates == {};
      return Decided(fallback);
    }
    assert candidates == {found[0]};
    return Decided(Commit(found[0]));
  }

  /** Decides a leader slot from blames and certificates: it is skipped exactly when a quorum of
      authors have a block in the next round without any ancestor by the leader's authority, and
      never when authors with validity stake always have one. */
  method TryDirectDecide(ctx: Context, opts: Options, d: Dag, slot: Slot) returns (o: Outcome)
    requires ValidDag(ctx, d) && opts.Valid()
    ensures o == DirectDecision(ctx.committee, opts, d, slot)
    ensures o == Decided(Skip(slot)) <==>
              ctx.committee.IsQuorum(set r | r in d && r.round == slot.round + 1
                && (forall k :: 0 <= k < |d[r].ancestors| ==> d[r].ancestors[k].author != slot.authority) :: r.author)
    ensures ctx.committee.ReachedValidity(ctx.committee.StakeOf(
              set r | r in d && r.round == slot.round + 1
                && (forall s :: s in d && s.round == r.round && s.author == r.author ==>
                      exists k :: 0 <= k < |d[s].ancestors| && d[s].ancestors[k].author == slot.authority) :: r.author))
            ==> o != Decided(Skip(slot))
  {
    var blamed := EnoughLeaderBlame(ctx, d, slot.round + 1, slot.authority);
    if blamed {
      HeardIsNotSkipped(ctx, d, slot);
      return Decided(Skip(slot));
    }
    var decisionRound := opts.DecisionRound(opts.WaveNumber(slot.round));
    var leaderBlocks := BlocksAtSlot(d, slot);
    var supported: seq<BlockRef> := [];
    for i := 0 to |leaderBlocks|
      invariant forall r :: r in supported <==>
                  r in leaderBlocks[..i] && EnoughSupport(ctx.committee, d, decisionRound, r)
      invariant forall j, k :: 0 <= j < k < |supported| ==> supported[j] != supported[k]
    {
      var enough := EnoughLeaderSupport(ctx, d, decisionRound, leaderBlocks[i]);
      if enough { supported := supported + [leaderBlocks[i]]; }
    }
    o := PickLeader(supported, SupportedLeaders(ctx.committee, opts, d, slot), Undecided(slot));
    RuleMeaning.NoneChosen(SupportedLeaders(ctx.committee, opts, d, slot), Undecided(slot));
  }

  lemma HeardIsNotSkipped(ctx: Context, d: Dag, slot: Slot)
    requires ValidDag(ctx, d)
    requires ctx.committee.IsQuorum(set r | r in d && r.round == slot.round + 1
               && (forall k :: 0 <= k < |d[r].ancestors| ==> d[r].ancestors[k].author != slot.authority) :: r.author)
    ensures !ctx.committee.ReachedValidity(ctx.committee.StakeOf(
              set r | r in d && r.round == slot.round + 1
                && (forall s :: s in d && s.round == r.round && s.author == r.author ==>
                      exists k :: 0 <= k < |d[s].ancestors| && d[s].ancestors[k].author == slot.authority) :: r.author))
  {
    var silent := set r | r in d && r.round == slot.round + 1
               && (forall k :: 0 <= k < |d[r].ancestors| ==> d[r].ancestors[k].author != slot.authority) :: r.author;
    var heard := set r | r in d && r.round == slot.round + 1
                && (forall s :: s in d && s.round == r.round && s.author == r.author ==>
                      exists k :: 0 <= k < |d[s].ancestors| && d[s].ancestors[k].author == slot.authority) :: r.author;
    assert silent !! heard;
    ApartSum(ctx.committee, silent, heard);
  }

  /** A quorum and a set apart from it: the latter is below the validity threshold. */
  lemma ApartSum(c: Committee, s: set<nat>, t: set<nat>)
    requires c.WellFormed() && s !! t && c.IsQuorum(s)
    ensures !c.ReachedValidity(c.StakeOf(t))
  {
    StakeUnion(c, s, t);
    StakeAtMostTotal(c, s + t);
    assert s * t == {};
    StakeEmpty(c);
    ThresholdsComplement(c);
  }

  // ---------------------------------------------------------------- indirect rule

  /** Whether any of the given blocks certifies the leader. */
  method AnyCertificate(ctx: Context, d: Dag, potential: seq<BlockRef>, leader: BlockRef) returns (any: bool)
    requires ValidDag(ctx, d) && forall r :: r in potential ==> r in d
    ensures any == exists r :: r in potential && IsCertificate(ctx.committee, d, r, leader)
  {
    var allVotes: map<BlockRef, bool> := map[];
    for k := 0 to |potential|
      invariant CacheOk(d, leader, allVotes)
      invariant forall j :: 0 <= j < k ==> !IsCertificate(ctx.committee, d, potential[j], leader)
    {
      any, allVotes := CheckCertificate(ctx, d, potential[k], leader, allVotes);
      if any { return; }
    }
    return false;
  }

  method DecideLeaderFromAnchor(ctx: Context, opts: Options, d: Dag, anchor: BlockRef, slot: Slot) returns (o: Outcome)
    requires ValidDag(ctx, d) && opts.Valid() && anchor in d && opts.CertifyingRound(slot.round) < anchor.round
    ensures o == DecisionFromAnchor(ctx.committee, opts, d, anchor, slot)
  {
    var leaderBlocks := BlocksAtSlot(d, slot);
    var decisionRound := opts.DecisionRound(opts.WaveNumber(slot.round));
    var found := AncestorsAtRound(d, anchor, decisionRound);
    var potential := ListOf(found);
    var certified: seq<BlockRef> := [];
    for i := 0 to |leaderBlocks|
      invariant forall r :: r in certified <==>
                  r in leaderBlocks[..i] && HasCertifiedLink(ctx.committee, d, anchor, decisionRound, r)
      invariant forall j, k :: 0 <= j < k < |certified| ==> certified[j] != certified[k]
    {
      var any := AnyCertificate(ctx, d, potential, leaderBlocks[i]);
      assert any == HasCertifiedLink(ctx.committee, d, anchor, decisionRound, leaderBlocks[i]);
      if any { certified := certified + [leaderBlocks[i]]; }
    }
    o := PickLeader(certified, LinkedLeaders(ctx.committee, opts, d, anchor, slot), Skip(slot));
  }

  /** Decides a slot from the statuses of later slots, in ascending order. */
  method TryIndirectDecide(ctx: Context, opts: Options, d: Dag, slot: Slot, leaders: seq<LeaderStatus>) returns (o: Outcome)
    requires ValidDag(ctx, d) && opts.Valid() && opts.HasLeader(slot.round) && CommitsIn(d, leaders)
    ensures o == IndirectDecision(ctx.committee, opts, d, slot, leaders)
    ensures forall i :: 0 <= i < |leaders| && leaders[i].Commit? && leaders[i].block.round >= slot.round + opts.waveLength
              && (forall j :: 0 <= j < i ==> leaders[j].Skip? || leaders[j].Round() < slot.round + opts.waveLength)
              ==> o == DecisionFromAnchor(ctx.committee, opts, d, leaders[i].block, slot)
    ensures (forall i :: 0 <= i < |leaders| && leaders[i].Commit? && leaders[i].block.round >= slot.round + opts.waveLength
              ==> exists j :: 0 <= j < i && leaders[j].Undecided? && leaders[j].Round() >= slot.round + opts.waveLength)
            ==> o == Decided(Undecided(slot))
  {
    AnchorExactly(opts, slot, leaders);
    NoAnchor(opts, slot, leaders);
    CertifyingRoundOfLeader(opts, slot.round);
    AnchorInDag(opts, slot, d, leaders);
    for i := 0 to |leaders|
      invariant Anchor(opts, slot, leaders) == Anchor(opts, slot, leaders[i..])
    {
      var anchor := leaders[i];
      assert leaders[i..][1..] == leaders[i + 1..];
      if slot.round + opts.waveLength <= anchor.Round() {
        match anchor {
          case Commit(block) =>
            o := DecideLeaderFromAnchor(ctx, opts, d, block, slot);
            return;
          case Skip(_) =>
          case Undecided(_) => break;
        }
      }
    }
    return Decided(Undecided(slot));
  }

  /** Every leader that is committed high enough comes after one that is still undecided. */
  lemma NoAnchor(opts: Options, slot: Slot, leaders: seq<LeaderStatus>)
    ensures (forall i :: 0 <= i < |leaders| && leaders[i].Commit? && leaders[i].block.round >= slot.round + opts.waveLength
              ==> exists j :: 0 <= j < i && leaders[j].Undecided? && leaders[j].Round() >= slot.round + opts.waveLength)
            ==> Anchor(opts, slot, leaders) == None
  {
    AnchorExactly(opts, slot, leaders);
  }
}
