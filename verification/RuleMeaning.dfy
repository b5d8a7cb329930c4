/** What support and the two decision rules amount to, in terms of references and authors. */
module RuleMeaning {
  import opened Committees
  import opened Blocks
  import opened BlockVerifier
  import opened Dags
  import opened CommitRule
  import opened CommitSafety

  // ---------------------------------------------------------------- support

  /** A block supports something in a slot exactly when some block of the slot lies below it. */
  lemma {:induction false} SupportedExactly(d: Dag, slot: Slot, r: BlockRef)
    requires Causal(d) && r in d
    ensures Supported(d, slot, r).Some? <==> exists x: BlockRef :: x.AsSlot() == slot && x != r && Reaches(d, r, x)
    decreases r.round, 1, 0
  {
    assert CausalEntry(d, r);
    if Supported(d, slot, r).Some? {
      SupportedIsInHistory(d, slot, r);
    }
    if x: BlockRef :| x.AsSlot() == slot && x != r && Reaches(d, r, x) {
      ReachesDown(d, r, x);
      var i :| 0 <= i < |d[r].ancestors| && Reaches(d, d[r].ancestors[i], x);
      SomeSupported(d, slot, r.round, d[r].ancestors, i, x);
    }
  }

  lemma {:induction false} SomeSupported(d: Dag, slot: Slot, bound: nat, refs: seq<BlockRef>, i: nat, x: BlockRef)
    requires Causal(d) && forall i :: 0 <= i < |refs| ==> refs[i] in d && refs[i].round < bound
    requires i < |refs| && x.AsSlot() == slot && Reaches(d, refs[i], x)
    ensures SupportedAmong(d, slot, bound, refs).Some?
    decreases bound, 0, |refs|
  {
    ReachesDown(d, refs[i], x);
    if i > 0 {
      SomeSupported(d, slot, bound, refs[1..], i - 1, x);
    } else if x != refs[0] {
      SupportedExactly(d, slot, refs[0]);
    }
  }

  /** When only one block of the slot lies below, that is the one. */
  lemma SoleSupported(d: Dag, slot: Slot, r: BlockRef, b: BlockRef)
    requires Causal(d) && r in d && b.AsSlot() == slot && b != r && Reaches(d, r, b)
    requires forall x: BlockRef :: x.AsSlot() == slot && x != r && Reaches(d, r, x) ==> x == b
    ensures Supported(d, slot, r) == Some(b)
  {
    SupportedExactly(d, slot, r);
    SupportedIsInHistory(d, slot, r);
  }

  // ---------------------------------------------------------------- direct rule

  lemma Candidates(c: Committee, opts: Options, d: Dag, slot: Slot, b: BlockRef)
    requires Causal(d) && opts.Valid() && opts.HasLeader(slot.round)
    ensures b in SupportedLeaders(c, opts, d, slot) <==>
              && b in d && b.AsSlot() == slot && b.round > 0
              && c.IsQuorum(set x | x in d && x.round == slot.round + opts.waveLength - 1 && IsCertificate(c, d, x, b) :: x.author)
  {
    CertifyingRoundOfLeader(opts, slot.round);
    assert CertificateAuthors(c, d, slot.round + opts.waveLength - 1, b)
        == set x | x in d && x.round == slot.round + opts.waveLength - 1 && IsCertificate(c, d, x, b) :: x.author;
  }

  /** Unless it is skipped, the leader with a quorum of certifying authors in the last round of the
      wave is committed, and without one the slot stays undecided. */
  lemma DirectCommitExactly(c: Committee, opts: Options, d: Dag, slot: Slot, b: BlockRef)
    requires Causal(d) && opts.Valid() && opts.HasLeader(slot.round) && !EnoughBlame(c, d, slot)
    ensures DirectDecision(c, opts, d, slot) == Decided(Commit(b)) ==>
              && b in d && b.AsSlot() == slot && b.round > 0
              && c.IsQuorum(set x | x in d && x.round == slot.round + opts.waveLength - 1 && IsCertificate(c, d, x, b) :: x.author)
    ensures b in d && b.AsSlot() == slot && b.round > 0
            && c.IsQuorum(set x | x in d && x.round == slot.round + opts.waveLength - 1 && IsCertificate(c, d, x, b) :: x.author)
            ==> DirectDecision(c, opts, d, slot) in {Decided(Commit(b)), TwoCertifiedBlocks}
    ensures DirectDecision(c, opts, d, slot) != Decided(Skip(slot))
  {
    hide IsCertificate;
    Candidates(c, opts, d, slot, b);
    Chosen(SupportedLeaders(c, opts, d, slot), Undecided(slot), b);
  }

  /** A direct commit needs a block in the last round of the wave. */
  lemma CommitNeedsWave(c: Committee, opts: Options, d: Dag, slot: Slot) returns (x: BlockRef)
    requires Causal(d) && opts.Valid() && opts.HasLeader(slot.round)
    requires DirectDecision(c, opts, d, slot).Decided? && DirectDecision(c, opts, d, slot).status.Commit?
    ensures x in d && x.round == slot.round + opts.waveLength - 1
  {
    hide IsCertificate;
    var b := DirectDecision(c, opts, d, slot).status.block;
    DirectCommitExactly(c, opts, d, slot, b);
    var authors := set x | x in d && x.round == slot.round + opts.waveLength - 1 && IsCertificate(c, d, x, b) :: x.author;
    var a := QuorumNotEmpty(c, authors);
    x :| x in d && x.round == slot.round + opts.waveLength - 1 && x.author == a;
  }

  lemma UndecidedExactly(c: Committee, opts: Options, d: Dag, slot: Slot)
    requires Causal(d) && opts.Valid() && opts.HasLeader(slot.round) && !EnoughBlame(c, d, slot)
    ensures DirectDecision(c, opts, d, slot) == Decided(Undecided(slot)) <==>
              forall b :: b in d && b.AsSlot() == slot && b.round > 0 ==>
                !c.IsQuorum(set x | x in d && x.round == slot.round + opts.waveLength - 1 && IsCertificate(c, d, x, b) :: x.author)
  {
    hide IsCertificate;
    forall b ensures b in SupportedLeaders(c, opts, d, slot) <==>
              && b in d && b.AsSlot() == slot && b.round > 0
              && c.IsQuorum(set x | x in d && x.round == slot.round + opts.waveLength - 1 && IsCertificate(c, d, x, b) :: x.author)
    {
      Candidates(c, opts, d, slot, b);
    }
    NoneChosen(SupportedLeaders(c, opts, d, slot), Undecided(slot));
  }

  lemma Chosen(candidates: set<BlockRef>, fallback: LeaderStatus, b: BlockRef)
    requires !fallback.Commit?
    ensures ChooseLeader(candidates, fallback) == Decided(Commit(b)) ==> b in candidates
    ensures b in candidates ==> ChooseLeader(candidates, fallback) in {Decided(Commit(b)), TwoCertifiedBlocks}
  {
    if b in candidates && |candidates| <= 1 {
      assert candidates == {b} by {
        if x :| x in candidates && x != b { assert |{x, b}| == 2 && {x, b} <= candidates; Smaller({x, b}, candidates); }
      }
    }
  }

  lemma NoneChosen(candidates: set<BlockRef>, fallback: LeaderStatus)
    requires !fallback.Commit?
    ensures ChooseLeader(candidates, fallback) == Decided(fallback) <==> candidates == {}
  {
  }

  lemma {:induction false} Smaller(s: set<BlockRef>, t: set<BlockRef>)
    requires s <= t
    ensures |s| <= |t|
    decreases s
  {
    if s != {} {
      var x :| x in s;
      Smaller(s - {x}, t - {x});
    }
  }

  /** Authors of referenced blocks that support the leader. */
  ghost function Backers(d: Dag, cert: BlockRef, leader: BlockRef): set<nat>
    requires Causal(d) && cert in d
  {
    set x | x in Parents(d[cert]) && x in d && Supported(d, leader.AsSlot(), x) == Some(leader) :: x.author
  }

  /** A certificate references blocks of a quorum of authors that support the leader. */
  lemma CertificateExactly(c: Committee, d: Dag, cert: BlockRef, leader: BlockRef)
    requires Causal(d) && cert in d
    ensures IsCertificate(c, d, cert, leader) <==> c.IsQuorum(Backers(d, cert, leader))
  {
    assert CausalEntry(d, cert);
    assert forall i :: 0 <= i < |d[cert].ancestors| ==> d[cert].ancestors[i] in Parents(d[cert]);
    assert VoteAuthors(d, cert, leader) == Backers(d, cert, leader);
  }

  // ---------------------------------------------------------------- indirect rule

  /** The anchor commits the leader that has a certificate of the last round of its wave below the
      anchor, and skips the slot when there is none. */
  lemma AnchorDecidesExactly(c: Committee, opts: Options, d: Dag, anchor: BlockRef, slot: Slot, b: BlockRef)
    requires Causal(d) && opts.Valid() && opts.HasLeader(slot.round) && anchor in d
    ensures DecisionFromAnchor(c, opts, d, anchor, slot) == Decided(Commit(b)) ==>
              && b in d && b.AsSlot() == slot && b.round > 0
              && exists x :: x in d && x.round == slot.round + opts.waveLength - 1 && x != anchor && Reaches(d, anchor, x) && IsCertificate(c, d, x, b)
    ensures b in d && b.AsSlot() == slot && b.round > 0
            && (exists x :: x in d && x.round == slot.round + opts.waveLength - 1 && x != anchor && Reaches(d, anchor, x) && IsCertificate(c, d, x, b))
            ==> DecisionFromAnchor(c, opts, d, anchor, slot) in {Decided(Commit(b)), TwoCertifiedBlocks}
  {
    CertifyingRoundOfLeader(opts, slot.round);
    Chosen(LinkedLeaders(c, opts, d, anchor, slot), Skip(slot), b);
  }

  lemma AnchorSkipsExactly(c: Committee, opts: Options, d: Dag, anchor: BlockRef, slot: Slot)
    requires Causal(d) && opts.Valid() && opts.HasLeader(slot.round) && anchor in d
    ensures DecisionFromAnchor(c, opts, d, anchor, slot) == Decided(Skip(slot)) <==>
              forall b, x :: b in d && b.AsSlot() == slot && b.round > 0
                && x in d && x.round == slot.round + opts.waveLength - 1 && x != anchor && Reaches(d, anchor, x)
                ==> !IsCertificate(c, d, x, b)
  {
    CertifyingRoundOfLeader(opts, slot.round);
    hide IsCertificate;
    hide Reaches;
    var linked := LinkedLeaders(c, opts, d, anchor, slot);
    NoneChosen(linked, Skip(slot));
    forall b, x | b in d && b.AsSlot() == slot && b.round > 0
                  && x in d && x.round == slot.round + opts.waveLength - 1 && x != anchor && Reaches(d, anchor, x) && IsCertificate(c, d, x, b)
      ensures b in linked
    {
      assert HasCertifiedLink(c, d, anchor, x.round, b);
    }
    if b :| b in linked {
      var x :| x in d && x.round == slot.round + opts.waveLength - 1 && x != anchor && Reaches(d, anchor, x) && IsCertificate(c, d, x, b);
    }
  }

  /** The anchor is the first later leader a wave or more above that is not skipped, if it is
      committed. */
  lemma {:induction false} AnchorExactly(opts: Options, slot: Slot, later: seq<LeaderStatus>)
    ensures forall i :: 0 <= i < |later| && later[i].Commit? && later[i].block.round >= slot.round + opts.waveLength
              && (forall j :: 0 <= j < i ==> later[j].Skip? || later[j].Round() < slot.round + opts.waveLength)
              ==> Anchor(opts, slot, later) == Some(later[i].block)
    ensures Anchor(opts, slot, later).Some? ==>
              exists i :: 0 <= i < |later| && later[i] == Commit(Anchor(opts, slot, later).value)
                && later[i].block.round >= slot.round + opts.waveLength
                && forall j :: 0 <= j < i ==> later[j].Skip? || later[j].Round() < slot.round + opts.waveLength
    decreases |later|
  {
    if later != [] {
      var rest := later[1..];
      AnchorExactly(opts, slot, rest);
      assert forall i :: 0 < i < |later| ==> later[i] == rest[i - 1];
      if later[0].Round() < slot.round + opts.waveLength || later[0].Skip? {
        if Anchor(opts, slot, rest).Some? {
          var i :| 0 <= i < |rest| && rest[i] == Commit(Anchor(opts, slot, rest).value)
                   && rest[i].block.round >= slot.round + opts.waveLength
                   && forall j :: 0 <= j < i ==> rest[j].Skip? || rest[j].Round() < slot.round + opts.waveLength;
          assert later[i + 1] == rest[i];
        }
        forall i | 0 <= i < |later| && later[i].Commit? && later[i].block.round >= slot.round + opts.waveLength
              && (forall j :: 0 <= j < i ==> later[j].Skip? || later[j].Round() < slot.round + opts.waveLength)
          ensures Anchor(opts, slot, later) == Some(later[i].block)
        {
          assert rest[i - 1] == later[i];
          assert forall j :: 0 <= j < i - 1 ==> rest[j] == later[j + 1];
        }
      }
    }
  }
}
