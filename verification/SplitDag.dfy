/** A family of DAGs of four correct authorities with equal stake. The block of authority 2 in
    round 1 is overlooked by the others in round 2 and supported by everybody later on. */
module SplitDags {
  import opened Committees
  import opened Blocks
  import opened BlockVerifier
  import opened Dags
  import opened CommitRule
  import opened CommitSafety

  // ---------------------------------------------------------------- searching a list of ancestors

  /** Among ancestors no higher than the slot, the one in the slot is supported. */
  lemma {:induction false} ListedSupport(d: Dag, slot: Slot, bound: nat, refs: seq<BlockRef>, k: nat)
    requires Causal(d) && forall i :: 0 <= i < |refs| ==> refs[i] in d && refs[i].round < bound
    requires forall i :: 0 <= i < |refs| ==> refs[i].round <= slot.round
    requires k < |refs| && refs[k].AsSlot() == slot && forall i :: 0 <= i < k ==> refs[i].AsSlot() != slot
    ensures SupportedAmong(d, slot, bound, refs) == Some(refs[k])
    decreases |refs|
  {
    if k > 0 { ListedSupport(d, slot, bound, refs[1..], k - 1); }
  }

  lemma {:induction false} ListedNone(d: Dag, slot: Slot, bound: nat, refs: seq<BlockRef>)
    requires Causal(d) && forall i :: 0 <= i < |refs| ==> refs[i] in d && refs[i].round < bound
    requires forall i :: 0 <= i < |refs| ==> refs[i].round <= slot.round && refs[i].AsSlot() != slot
    ensures SupportedAmong(d, slot, bound, refs) == None
    decreases |refs|
  {
    if refs != [] { ListedNone(d, slot, bound, refs[1..]); }
  }

  /** Ancestors above the slot of which one supports a block, and the others that or nothing. */
  lemma {:induction false} InheritedSupport(d: Dag, slot: Slot, bound: nat, refs: seq<BlockRef>, k: nat, b: BlockRef)
    requires Causal(d) && forall i :: 0 <= i < |refs| ==> refs[i] in d && refs[i].round < bound
    requires forall i :: 0 <= i < |refs| ==> refs[i].round > slot.round && Supported(d, slot, refs[i]) in {None, Some(b)}
    requires k < |refs| && Supported(d, slot, refs[k]) == Some(b)
    ensures SupportedAmong(d, slot, bound, refs) == Some(b)
    decreases |refs|
  {
    if k > 0 && Supported(d, slot, refs[0]) == None { InheritedSupport(d, slot, bound, refs[1..], k - 1, b); }
  }

  // ---------------------------------------------------------------- the DAGs

  /** Four authorities with equal stake. */
  function Four(): Context {
    Context(Committee(0, [1, 1, 1, 1]), {At(0, 0), At(0, 1), At(0, 2), At(0, 3)}, _ => true, _ => true)
  }

  function At(round: nat, author: nat): BlockRef { BlockRef(round, author, 0) }

  /** In round 2 authorities 0, 1 and 3 reference each other. In all other rounds 0, 1 and 2 do. */
  function SplitAncestors(round: nat, author: nat): seq<BlockRef>
    requires round > 0
  {
    var r := round - 1;
    if round == 2 && author != 2 then
      [At(r, author), At(r, if author == 0 then 1 else 0), At(r, if author == 3 then 1 else 3)]
    else if author == 3 then [At(r, 3), At(r, 0), At(r, 1), At(r, 2)]
    else [At(r, author), At(r, (author + 1) % 3), At(r, (author + 2) % 3)]
  }

  function SplitBlock(r: BlockRef): Block {
    Block(0, r.round, r.author, 0, if r.round == 0 then [] else SplitAncestors(r.round, r.author), [], 0)
  }

  /** Authority 3 stops after round 2; its last block is only in the whole DAG. */
  predicate InSplit(top: nat, whole: bool, r: BlockRef) {
    && r.digest == 0 && r.round <= top
    && (r.author < 3 || (r.author == 3 && r.round <= if whole then 2 else 1))
  }

  function SplitDag(top: nat, whole: bool): Dag {
    map round, author | 0 <= round <= top && 0 <= author <= 3 && InSplit(top, whole, At(round, author))
      :: At(round, author) := SplitBlock(At(round, author))
  }

  lemma SplitMembers(top: nat, whole: bool, r: BlockRef)
    ensures r in SplitDag(top, whole) <==> InSplit(top, whole, r)
    ensures r in SplitDag(top, whole) ==> SplitDag(top, whole)[r] == SplitBlock(r)
  {
    assert InSplit(top, whole, r) ==> r == At(r.round, r.author);
  }

  lemma FourWellFormed()
    ensures Four().WellFormed() && Four().committee.TotalStake() == 4
    ensures Four().committee.QuorumThreshold() == 3 && Four().committee.ValidityThreshold() == 2
  {
    var stakes := Four().committee.stakes;
    assert stakes[..3][..2] == stakes[..2] && stakes[..2][..1] == stakes[..1] && stakes[..1][..0] == [];
    assert Sum(stakes[..1]) == 1;
    assert Sum(stakes[..2]) == 2;
    assert Sum(stakes[..3]) == 3;
  }

  ghost predicate AllBut(s: set<nat>, out: nat) {
    forall a :: 0 <= a < 4 && a != out ==> a in s
  }

  /** Three of the four authorities are a quorum. */
  lemma ThreeOfFour(s: set<nat>, out: nat)
    requires AllBut(s, out)
    ensures Four().committee.IsQuorum(s)
  {
    var stakes := Four().committee.stakes;
    FourWellFormed();
    assert StakeBelow(stakes, s, 1) >= if out == 0 then 0 else 1;
    assert StakeBelow(stakes, s, 2) >= if out < 2 then 1 else 2;
    assert StakeBelow(stakes, s, 3) >= if out < 3 then 2 else 3;
  }

  lemma TwoOfFour(s: set<nat>)
    requires s <= {0, 1}
    ensures !Four().committee.IsQuorum(s)
  {
    var stakes := Four().committee.stakes;
    FourWellFormed();
    assert StakeBelow(stakes, s, 1) <= 1;
    assert StakeBelow(stakes, s, 2) <= 2;
    assert StakeBelow(stakes, s, 3) <= 2;
  }

  /** Where the block of a given author stands among the ancestors, if there. */
  lemma SplitPosition(round: nat, author: nat, a: nat) returns (i: nat)
    requires round > 0 && author < 4 && a < 4 && (author == 3 ==> round <= 2)
    requires if round == 2 && author != 2 then a != 2 else a < 3
    ensures i < |SplitAncestors(round, author)| && SplitAncestors(round, author)[i] == At(round - 1, a)
  {
    if round == 2 && author != 2 {
      i := if a == author then 0 else if a == 3 || (a == 1 && author == 3) then 2 else 1;
    } else {
      i := if author == 3 then a + 1 else (a + 3 - author) % 3;
    }
  }

  lemma SplitParents(r: BlockRef)
    requires r.round > 0 && (r.author < 3 || (r.author == 3 && r.round <= 2))
    ensures Four().committee.IsQuorum(SplitBlock(r).ParentAuthors())
  {
    var b := SplitBlock(r);
    var out := if r.round == 2 && r.author != 2 then 2 else 3;
    forall a | 0 <= a < 4 && a != out ensures a in b.ParentAuthors() {
      var i := SplitPosition(r.round, r.author, a);
      assert b.ancestors[i] == At(r.round - 1, a);
    }
    ThreeOfFour(b.ParentAuthors(), out);
  }

  lemma SplitIsValid(r: BlockRef)
    requires r.digest == 0 && r.round > 0 && (r.author < 3 || (r.author == 3 && r.round <= 2))
    ensures ValidBlock(Four(), SplitBlock(r))
  {
    hide Committee.IsQuorum;
    hide Block.ParentAuthors;
    SplitParents(r);
  }

  lemma SplitLinks(top: nat, whole: bool, r: BlockRef)
    requires r in SplitDag(top, whole)
    ensures CausalEntry(SplitDag(top, whole), r)
  {
    hide SplitDag;
    var d := SplitDag(top, whole);
    SplitMembers(top, whole, r);
    var refs := d[r].ancestors;
    forall i | 0 <= i < |refs| ensures refs[i] in d && refs[i].round < r.round {
      SplitMembers(top, whole, refs[i]);
    }
  }

  lemma SplitDagIsValid(top: nat, whole: bool)
    ensures ValidDag(Four(), SplitDag(top, whole))
  {
    hide ValidBlock;
    hide SplitDag;
    FourWellFormed();
    var d := SplitDag(top, whole);
    forall r | r in d ensures CausalEntry(d, r) && ValidEntry(Four(), d, r) {
      SplitMembers(top, whole, r);
      SplitLinks(top, whole, r);
      if r.round > 0 { SplitIsValid(r); }
    }
  }

  lemma SplitDagIsCausal(top: nat, whole: bool)
    ensures Causal(SplitDag(top, whole))
  {
    SplitDagIsValid(top, whole);
  }

  lemma SplitFollows(top: nat, whole: bool, r: BlockRef, s: BlockRef)
    requires r in SplitDag(top, whole) && s in SplitDag(top, whole) && r.author == s.author && r.round <= s.round
    ensures FollowsOwn(SplitDag(top, whole), r, s)
  {
    hide SplitDag;
    SplitMembers(top, whole, r);
    SplitMembers(top, whole, s);
  }

  lemma SplitDagIsBft(top: nat, whole: bool)
    ensures BftUniverse(Four(), SplitDag(top, whole), {})
  {
    hide SplitDag;
    hide ValidDag;
    hide FollowsOwn;
    SplitDagIsValid(top, whole);
    FourWellFormed();
    StakeEmpty(Four().committee);
    var u := SplitDag(top, whole);
    forall r, s | r in u && s in u && r.author == s.author && r.round <= s.round ensures FollowsOwn(u, r, s) {
      SplitFollows(top, whole, r, s);
    }
  }

  /** Without the last block of authority 3 the DAG is a view of the whole one. */
  lemma SplitView(top: nat)
    ensures ViewOf(SplitDag(top, false), SplitDag(top, true))
  {
    hide SplitDag;
    SplitDagIsCausal(top, false);
    forall r | r in SplitDag(top, false) ensures r in SplitDag(top, true) && SplitDag(top, false)[r] == SplitDag(top, true)[r] {
      SplitMembers(top, false, r);
      SplitMembers(top, true, r);
    }
  }

  // ---------------------------------------------------------------- the overlooked block

  /** Whoever sees the last block of authority 3 sees 2f+1 blames. */
  lemma SplitBlames(top: nat)
    requires top >= 2
    ensures EnoughBlame(Four().committee, SplitDag(top, true), Slot(1, 2))
  {
    hide SplitDag;
    var d := SplitDag(top, true);
    forall a | 0 <= a < 4 && a != 2 ensures a in BlameAuthors(d, 2, 2) {
      SplitMembers(top, true, At(2, a));
      assert IsBlame(d, At(2, a), 2);
    }
    ThreeOfFour(BlameAuthors(d, 2, 2), 2);
  }

  /** Nobody else does. */
  lemma SplitNotBlamed(top: nat)
    ensures !EnoughBlame(Four().committee, SplitDag(top, false), Slot(1, 2))
  {
    hide SplitDag;
    var d := SplitDag(top, false);
    forall r | r in d && r.round == 2 && IsBlame(d, r, 2) ensures r.author in {0, 1} {
      SplitMembers(top, false, r);
      assert d[r].ancestors[0] == At(1, r.author);
    }
    TwoOfFour(BlameAuthors(d, 2, 2));
  }

  lemma SplitSecondRound(top: nat, whole: bool, a: nat)
    requires top >= 2 && a < 3
    ensures Causal(SplitDag(top, whole)) && At(2, a) in SplitDag(top, whole)
    ensures Supported(SplitDag(top, whole), Slot(1, 2), At(2, a)) == if a == 2 then Some(At(1, 2)) else None
  {
    hide SplitDag;
    hide SupportedAmong;
    var d := SplitDag(top, whole);
    SplitDagIsCausal(top, whole);
    SplitMembers(top, whole, At(2, a));
    assert CausalEntry(d, At(2, a));
    if a == 2 {
      ListedSupport(d, Slot(1, 2), 2, d[At(2, a)].ancestors, 0);
    } else {
      ListedNone(d, Slot(1, 2), 2, d[At(2, a)].ancestors);
    }
  }

  /** From round 3 on everybody supports the overlooked block. */
  lemma {:induction false} SplitSupport(top: nat, whole: bool, round: nat, a: nat)
    requires 3 <= round <= top && a < 3
    ensures Causal(SplitDag(top, whole)) && At(round, a) in SplitDag(top, whole)
    ensures Supported(SplitDag(top, whole), Slot(1, 2), At(round, a)) == Some(At(1, 2))
    decreases round
  {
    hide SplitDag;
    hide SupportedAmong;
    var d, slot := SplitDag(top, whole), Slot(1, 2);
    SplitDagIsCausal(top, whole);
    SplitMembers(top, whole, At(round, a));
    assert CausalEntry(d, At(round, a));
    var refs := d[At(round, a)].ancestors;
    forall i | 0 <= i < |refs| ensures Supported(d, slot, refs[i]) in {None, Some(At(1, 2))}
                               ensures refs[i].author == 2 ==> Supported(d, slot, refs[i]) == Some(At(1, 2))
    {
      if round == 3 { SplitSecondRound(top, whole, refs[i].author); } else { SplitSupport(top, whole, round - 1, refs[i].author); }
    }
    var k := SplitPosition(round, a, 2);
    InheritedSupport(d, slot, round, refs, k, At(1, 2));
  }

  lemma SplitCertificate(top: nat, whole: bool, round: nat, a: nat)
    requires 4 <= round <= top && a < 3
    ensures Causal(SplitDag(top, whole)) && At(round, a) in SplitDag(top, whole)
    ensures IsCertificate(Four().committee, SplitDag(top, whole), At(round, a), At(1, 2))
  {
    hide SplitDag;
    hide Supported;
    var d, cert := SplitDag(top, whole), At(round, a);
    SplitDagIsCausal(top, whole);
    SplitMembers(top, whole, cert);
    assert CausalEntry(d, cert);
    var voters := VoteAuthors(d, cert, At(1, 2));
    forall x | 0 <= x < 4 && x != 3 ensures x in voters {
      SplitSupport(top, whole, round - 1, x);
      var i := SplitPosition(round, a, x);
      assert d[cert].ancestors[i] == At(round - 1, x);
    }
    ThreeOfFour(voters, 3);
  }

  /** So the one skips the leader of round 1 and the other commits it, for every wave longer than
      three rounds. */
  lemma SplitDecisions(waveLength: nat)
    requires waveLength > 3
    ensures Causal(SplitDag(waveLength, false)) && Causal(SplitDag(waveLength, true))
    ensures var opts := Options(waveLength, 0, 1);
            && opts.HasLeader(1)
            && DirectDecision(Four().committee, opts, SplitDag(waveLength, true), Slot(1, 2)) == Decided(Skip(Slot(1, 2)))
            && DirectDecision(Four().committee, opts, SplitDag(waveLength, false), Slot(1, 2)) == Decided(Commit(At(1, 2)))
  {
    hide SplitDag;
    hide Supported;
    hide IsCertificate;
    var c, opts, d := Four().committee, Options(waveLength, 0, 1), SplitDag(waveLength, false);
    SplitDagIsCausal(waveLength, true);
    SplitBlames(waveLength);
    SplitDagIsCausal(waveLength, false);
    SplitNotBlamed(waveLength);
    SplitRounds(waveLength);
    SplitMembers(waveLength, false, At(1, 2));
    var authors := CertificateAuthors(c, d, waveLength, At(1, 2));
    forall a | 0 <= a < 4 && a != 3 ensures a in authors { SplitCertificate(waveLength, false, waveLength, a); }
    ThreeOfFour(authors, 3);
    SplitDagIsBft(waveLength, false);
    assert ViewOf(d, d);
    DirectNeverPanics(Four(), opts, d, {}, d, Slot(1, 2));
    assert At(1, 2) in SupportedLeaders(c, opts, d, Slot(1, 2));
  }

  lemma SplitRounds(waveLength: nat)
    requires waveLength >= 3
    ensures Options(waveLength, 0, 1).HasLeader(1) && Options(waveLength, 0, 1).CertifyingRound(1) == waveLength
  {
  }

  // ---------------------------------------------------------------- blocks nobody overlooks

  lemma SplitVote(top: nat, round: nat, a: nat, x: nat)
    requires 0 < round < top && a < 2 && x < 3
    ensures Causal(SplitDag(top, true)) && At(round + 1, x) in SplitDag(top, true)
    ensures IsVote(SplitDag(top, true), At(round + 1, x), At(round, a))
  {
    hide SplitDag;
    hide SupportedAmong;
    var d, r := SplitDag(top, true), At(round + 1, x);
    SplitDagIsCausal(top, true);
    SplitMembers(top, true, r);
    assert CausalEntry(d, r);
    var k := SplitPosition(round + 1, x, a);
    ListedSupport(d, Slot(round, a), round + 1, d[r].ancestors, k);
  }

  lemma SplitCertifies(top: nat, round: nat, a: nat, x: nat)
    requires 0 < round && round + 2 <= top && a < 2 && x < 3
    ensures Causal(SplitDag(top, true)) && At(round + 2, x) in SplitDag(top, true)
    ensures IsCertificate(Four().committee, SplitDag(top, true), At(round + 2, x), At(round, a))
  {
    hide SplitDag;
    hide Supported;
    var d, cert := SplitDag(top, true), At(round + 2, x);
    SplitDagIsCausal(top, true);
    SplitMembers(top, true, cert);
    assert CausalEntry(d, cert);
    var voters := VoteAuthors(d, cert, At(round, a));
    forall y | 0 <= y < 4 && y != 3 ensures y in voters {
      SplitVote(top, round, a, y);
      var i := SplitPosition(round + 2, x, y);
      assert d[cert].ancestors[i] == At(round + 1, y);
    }
    ThreeOfFour(voters, 3);
  }

  lemma SplitUnblamed(top: nat, round: nat, a: nat)
    requires 0 < round && a < 2
    ensures !EnoughBlame(Four().committee, SplitDag(top, true), Slot(round, a))
  {
    hide SplitDag;
    var d := SplitDag(top, true);
    forall r | r in d && r.round == round + 1 ensures !IsBlame(d, r, a) {
      SplitMembers(top, true, r);
      var i := SplitPosition(r.round, r.author, a);
      assert d[r].ancestors[i].author == a;
    }
    assert BlameAuthors(d, round + 1, a) == {};
    TwoOfFour({});
  }

  /** In every round with two rounds above it the blocks of authorities 0 and 1 are committed directly. */
  lemma SplitCommits(top: nat, opts: Options, round: nat, a: nat)
    requires 0 < round && round + 2 <= top && a < 2 && opts.Valid() && opts.HasLeader(round) && opts.waveLength == 3
    ensures Causal(SplitDag(top, true))
    ensures DirectDecision(Four().committee, opts, SplitDag(top, true), Slot(round, a)) == Decided(Commit(At(round, a)))
  {
    hide SplitDag;
    hide Supported;
    hide IsCertificate;
    var d, c := SplitDag(top, true), Four().committee;
    SplitDagIsBft(top, true);
    SplitUnblamed(top, round, a);
    SplitMembers(top, true, At(round, a));
    CertifyingRoundOfLeader(opts, round);
    var authors := CertificateAuthors(c, d, round + 2, At(round, a));
    forall x | 0 <= x < 4 && x != 3 ensures x in authors { SplitCertifies(top, round, a, x); }
    ThreeOfFour(authors, 3);
    assert ViewOf(d, d);
    DirectNeverPanics(Four(), opts, d, {}, d, Slot(round, a));
    assert At(round, a) in SupportedLeaders(c, opts, d, Slot(round, a));
  }
}
