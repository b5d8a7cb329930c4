/** Safety of the commit rule over every universe of blocks the fault model allows. */
module CommitSafety {
  import opened Committees
  import opened Blocks
  import opened BlockVerifier
  import opened Dags
  import opened CommitRule

  // ---------------------------------------------------------------- support

  /** The supported block lies in the slot and strictly below the supporting block. */
  lemma {:induction false} SupportedIsInHistory(d: Dag, slot: Slot, r: BlockRef)
    requires Causal(d) && r in d && Supported(d, slot, r).Some?
    ensures var b := Supported(d, slot, r).value;
            b in d && b.AsSlot() == slot && slot.round < r.round && Reaches(d, r, b)
    decreases r.round, 1, 0
  {
    assert CausalEntry(d, r);
    var i := SupportedAmongHit(d, slot, r.round, d[r].ancestors);
    assert Reaches(d, d[r].ancestors[i], Supported(d, slot, r).value);
  }

  lemma {:induction false} SupportedAmongHit(d: Dag, slot: Slot, bound: nat, refs: seq<BlockRef>) returns (i: nat)
    requires Causal(d)
    requires forall i :: 0 <= i < |refs| ==> refs[i] in d && refs[i].round < bound
    requires SupportedAmong(d, slot, bound, refs).Some?
    ensures i < |refs|
    ensures var b := SupportedAmong(d, slot, bound, refs).value;
            b in d && b.AsSlot() == slot && slot.round < bound && Reaches(d, refs[i], b)
            && (refs[i].round <= slot.round ==> b == refs[i])
    decreases bound, 0, |refs|
  {
    if refs[0].AsSlot() == slot {
      i := 0;
    } else if refs[0].round > slot.round && Supported(d, slot, refs[0]).Some? {
      SupportedIsInHistory(d, slot, refs[0]);
      i := 0;
    } else {
      i := SupportedAmongHit(d, slot, bound, refs[1..]);
      i := i + 1;
    }
  }

  /** Support depends on the causal history of the block only, not on the view it is read from. */
  lemma {:induction false} SupportedInView(v: Dag, u: Dag, slot: Slot, r: BlockRef)
    requires Causal(u) && ViewOf(v, u) && r in v
    ensures Supported(v, slot, r) == Supported(u, slot, r)
    decreases r.round, 1, 0
  {
    assert CausalEntry(v, r) && CausalEntry(u, r);
    SupportedAmongInView(v, u, slot, r.round, v[r].ancestors);
  }

  lemma {:induction false} SupportedAmongInView(v: Dag, u: Dag, slot: Slot, bound: nat, refs: seq<BlockRef>)
    requires Causal(u) && ViewOf(v, u)
    requires forall i :: 0 <= i < |refs| ==> refs[i] in v && refs[i].round < bound
    ensures SupportedAmong(v, slot, bound, refs) == SupportedAmong(u, slot, bound, refs)
    decreases bound, 0, |refs|
  {
    if refs != [] {
      SupportedInView(v, u, slot, refs[0]);
      SupportedAmongInView(v, u, slot, bound, refs[1..]);
    }
  }

  /** Once an author supports a block of a slot, every later block on the author's own chain
      supports that same block. */
  lemma {:induction false} SupportPersists(d: Dag, slot: Slot, later: BlockRef, earlier: BlockRef)
    requires Causal(d) && later in d && earlier in d && OwnReaches(d, later, earlier)
    requires Supported(d, slot, earlier).Some?
    ensures Supported(d, slot, later) == Supported(d, slot, earlier)
    decreases later.round
  {
    assert CausalEntry(d, later);
    if later != earlier {
      var a := d[later].ancestors[0];
      SupportPersists(d, slot, a, earlier);
      SupportedIsInHistory(d, slot, a);
    }
  }

  lemma VoteAuthorsInView(v: Dag, u: Dag, cert: BlockRef, leader: BlockRef)
    requires Causal(u) && ViewOf(v, u) && cert in v
    ensures VoteAuthors(v, cert, leader) == VoteAuthors(u, cert, leader)
  {
    assert CausalEntry(v, cert) && CausalEntry(u, cert);
    forall i | 0 <= i < |v[cert].ancestors|
      ensures IsVote(v, v[cert].ancestors[i], leader) == IsVote(u, v[cert].ancestors[i], leader)
    {
      SupportedInView(v, u, leader.AsSlot(), v[cert].ancestors[i]);
    }
  }

  lemma VoteOf(d: Dag, cert: BlockRef, leader: BlockRef, a: nat) returns (vote: BlockRef)
    requires Causal(d) && cert in d && a in VoteAuthors(d, cert, leader)
    ensures vote in d && vote.author == a && vote.round < cert.round && IsVote(d, vote, leader)
    ensures leader.round < vote.round && Reaches(d, cert, vote) && Reaches(d, vote, leader) && leader in d
  {
    assert CausalEntry(d, cert);
    var i :| 0 <= i < |d[cert].ancestors| && IsVote(d, d[cert].ancestors[i], leader) && d[cert].ancestors[i].author == a;
    vote := d[cert].ancestors[i];
    SupportedIsInHistory(d, leader.AsSlot(), vote);
    assert Reaches(d, vote, vote);
  }

  /** Whatever is certified lies in the history of its certificate. */
  lemma CertifiedIsInHistory(c: Committee, d: Dag, cert: BlockRef, leader: BlockRef)
    requires Causal(d) && cert in d && IsCertificate(c, d, cert, leader)
    ensures leader in d && Reaches(d, cert, leader) && leader.round + 2 <= cert.round
  {
    var a := QuorumNotEmpty(c, VoteAuthors(d, cert, leader));
    var vote := VoteOf(d, cert, leader, a);
    ReachesTransitive(d, cert, vote, leader);
  }

  // ---------------------------------------------------------------- certificates are unique

  /** For every wave length: two certificates, anywhere in the universe and in whatever rounds,
      for blocks of one slot are certificates for the same block. */
  lemma OneCertifiedBlockPerSlot(ctx: Context, u: Dag, byzantine: set<nat>,
                                 x: BlockRef, y: BlockRef, b: BlockRef, b': BlockRef)
    requires BftUniverse(ctx, u, byzantine) && x in u && y in u && b.AsSlot() == b'.AsSlot()
    requires IsCertificate(ctx.committee, u, x, b) && IsCertificate(ctx.committee, u, y, b')
    ensures b == b'
  {
    var h := QuorumsShareHonest(ctx.committee, byzantine, VoteAuthors(u, x, b), VoteAuthors(u, y, b'));
    var v := VoteOf(u, x, b, h);
    var w := VoteOf(u, y, b', h);
    if v.round <= w.round {
      HonestChain(ctx, u, byzantine, v, w);
      SupportPersists(u, b.AsSlot(), w, v);
    } else {
      HonestChain(ctx, u, byzantine, w, v);
      SupportPersists(u, b.AsSlot(), v, w);
    }
  }

  /** With waves of three rounds, 2f+1 blames seen by anyone rule out a certificate for any block
      of the slot anywhere in the universe. */
  lemma BlameExcludesCertificate(ctx: Context, u: Dag, byzantine: set<nat>, v: Dag, slot: Slot,
                                 x: BlockRef, b: BlockRef)
    requires BftUniverse(ctx, u, byzantine) && ViewOf(v, u) && EnoughBlame(ctx.committee, v, slot)
    requires x in u && x.round == slot.round + 2 && b.AsSlot() == slot
    ensures !IsCertificate(ctx.committee, u, x, b)
  {
    if IsCertificate(ctx.committee, u, x, b) {
      var h := QuorumsShareHonest(ctx.committee, byzantine,
                                  BlameAuthors(v, slot.round + 1, slot.authority), VoteAuthors(u, x, b));
      var blame :| blame in v && blame.round == slot.round + 1 && IsBlame(v, blame, slot.authority) && blame.author == h;
      var vote := VoteOf(u, x, b, h);
      assert FollowsOwn(u, blame, vote) && blame == vote;
      VoteJustAboveIsDirect(u, vote, b);
      assert false;
    }
  }

  /** In the round just above the leader a vote is a direct reference. */
  lemma VoteJustAboveIsDirect(d: Dag, vote: BlockRef, leader: BlockRef)
    requires Causal(d) && vote in d && IsVote(d, vote, leader) && vote.round == leader.round + 1
    ensures leader in d[vote].ancestors
  {
    assert CausalEntry(d, vote);
    var i := SupportedAmongHit(d, leader.AsSlot(), vote.round, d[vote].ancestors);
    assert d[vote].ancestors[i] == leader;
  }

  /** 2f+1 certificates in one view put a certificate into the history of every verified block
      above the decision round, wherever that block is seen. */
  lemma SupportForcesLink(ctx: Context, u: Dag, byzantine: set<nat>, v: Dag, w: Dag,
                          decisionRound: nat, b: BlockRef, anchor: BlockRef)
    requires BftUniverse(ctx, u, byzantine) && ViewOf(v, u) && ViewOf(w, u)
    requires EnoughSupport(ctx.committee, v, decisionRound, b)
    requires anchor in w && decisionRound < anchor.round
    ensures b in w && HasCertifiedLink(ctx.committee, w, anchor, decisionRound, b)
  {
    HistoryHasQuorums(ctx, u, anchor, decisionRound);
    var h := QuorumsShareHonest(ctx.committee, byzantine,
                                CertificateAuthors(ctx.committee, v, decisionRound, b),
                                HistoryAuthors(u, anchor, decisionRound));
    var x :| x in v && x.round == decisionRound && IsCertificate(ctx.committee, v, x, b) && x.author == h;
    var y :| y in u && y.round == decisionRound && Reaches(u, anchor, y) && y.author == h;
    assert FollowsOwn(u, x, y) && x == y;
    VoteAuthorsInView(v, u, x, b);
    CertificateIsLinked(ctx.committee, u, w, anchor, x, b);
  }

  /** A certificate in the history of a block of a view is visible, with what it certifies, in that view. */
  lemma CertificateIsLinked(c: Committee, u: Dag, w: Dag, anchor: BlockRef, x: BlockRef, b: BlockRef)
    requires Causal(u) && ViewOf(w, u) && anchor in w && x in u && x.round < anchor.round
    requires Reaches(u, anchor, x) && IsCertificate(c, u, x, b)
    ensures b in w && HasCertifiedLink(c, w, anchor, x.round, b)
  {
    ReachesInView(w, u, anchor, x);
    VoteAuthorsInView(w, u, x, b);
    CertifiedIsInHistory(c, w, x, b);
  }

  // ---------------------------------------------------------------- decisions

  lemma SupportGivesCertificate(c: Committee, v: Dag, u: Dag, decisionRound: nat, b: BlockRef) returns (x: BlockRef)
    requires Causal(u) && ViewOf(v, u) && EnoughSupport(c, v, decisionRound, b)
    ensures x in v && x.round == decisionRound && IsCertificate(c, u, x, b)
  {
    var a := QuorumNotEmpty(c, CertificateAuthors(c, v, decisionRound, b));
    x :| x in v && x.round == decisionRound && IsCertificate(c, v, x, b) && x.author == a;
    VoteAuthorsInView(v, u, x, b);
  }

  lemma LinkGivesCertificate(c: Committee, v: Dag, u: Dag, anchor: BlockRef, decisionRound: nat, b: BlockRef)
    returns (x: BlockRef)
    requires Causal(u) && ViewOf(v, u) && anchor in v && HasCertifiedLink(c, v, anchor, decisionRound, b)
    ensures x in v && x.round == decisionRound && Reaches(u, anchor, x) && x != anchor && IsCertificate(c, u, x, b)
  {
    x :| x in v && x.round == decisionRound && x != anchor && Reaches(v, anchor, x) && IsCertificate(c, v, x, b);
    VoteAuthorsInView(v, u, x, b);
    ReachesInView(v, u, anchor, x);
  }

  /** "More than one certified block" never happens in the direct rule, for every wave length. */
  lemma DirectNeverPanics(ctx: Context, opts: Options, u: Dag, byzantine: set<nat>, v: Dag, slot: Slot)
    requires BftUniverse(ctx, u, byzantine) && ViewOf(v, u) && opts.Valid()
    ensures DirectDecision(ctx.committee, opts, v, slot).Decided?
    ensures forall b :: b in SupportedLeaders(ctx.committee, opts, v, slot) && !EnoughBlame(ctx.committee, v, slot)
              ==> DirectDecision(ctx.committee, opts, v, slot) == Decided(Commit(b))
  {
    var s := SupportedLeaders(ctx.committee, opts, v, slot);
    var round := opts.CertifyingRound(slot.round);
    forall b, b' | b in s && b' in s ensures b == b' {
      var x := SupportGivesCertificate(ctx.committee, v, u, round, b);
      var y := SupportGivesCertificate(ctx.committee, v, u, round, b');
      OneCertifiedBlockPerSlot(ctx, u, byzantine, x, y, b, b');
    }
    forall b | b in s ensures ChooseLeader(s, Undecided(slot)) == Decided(Commit(b)) {
      ChooseUnique(s, Undecided(slot), b);
    }
  }

  /** Nor in the indirect rule. */
  lemma AnchorNeverPanics(ctx: Context, opts: Options, u: Dag, byzantine: set<nat>, v: Dag, anchor: BlockRef, slot: Slot)
    requires BftUniverse(ctx, u, byzantine) && ViewOf(v, u) && opts.Valid() && anchor in v
    ensures DecisionFromAnchor(ctx.committee, opts, v, anchor, slot).Decided?
    ensures forall b :: b in LinkedLeaders(ctx.committee, opts, v, anchor, slot)
              ==> DecisionFromAnchor(ctx.committee, opts, v, anchor, slot) == Decided(Commit(b))
  {
    var s := LinkedLeaders(ctx.committee, opts, v, anchor, slot);
    var round := opts.CertifyingRound(slot.round);
    forall b, b' | b in s && b' in s ensures b == b' {
      var x := LinkGivesCertificate(ctx.committee, v, u, anchor, round, b);
      var y := LinkGivesCertificate(ctx.committee, v, u, anchor, round, b');
      OneCertifiedBlockPerSlot(ctx, u, byzantine, x, y, b, b');
    }
    forall b | b in s ensures ChooseLeader(s, Skip(slot)) == Decided(Commit(b)) {
      ChooseUnique(s, Skip(slot), b);
    }
  }

  /** An anchor decides a slot the same way in every view that contains it. */
  lemma AnchorDecidesAlike(ctx: Context, opts: Options, u: Dag, v: Dag, w: Dag, anchor: BlockRef, slot: Slot)
    requires Causal(u) && ViewOf(v, u) && ViewOf(w, u) && opts.Valid() && anchor in v && anchor in w
    ensures DecisionFromAnchor(ctx.committee, opts, v, anchor, slot) == DecisionFromAnchor(ctx.committee, opts, w, anchor, slot)
  {
    LinkedLeadersIncluded(ctx, opts, u, v, w, anchor, slot);
    LinkedLeadersIncluded(ctx, opts, u, w, v, anchor, slot);
    assert LinkedLeaders(ctx.committee, opts, v, anchor, slot) == LinkedLeaders(ctx.committee, opts, w, anchor, slot);
  }

  lemma LinkedLeadersIncluded(ctx: Context, opts: Options, u: Dag, v: Dag, w: Dag, anchor: BlockRef, slot: Slot)
    requires Causal(u) && ViewOf(v, u) && ViewOf(w, u) && opts.Valid() && anchor in v && anchor in w
    ensures LinkedLeaders(ctx.committee, opts, v, anchor, slot) <= LinkedLeaders(ctx.committee, opts, w, anchor, slot)
  {
    var round := opts.CertifyingRound(slot.round);
    forall b | b in LinkedLeaders(ctx.committee, opts, v, anchor, slot)
      ensures b in LinkedLeaders(ctx.committee, opts, w, anchor, slot)
    {
      var x := LinkGivesCertificate(ctx.committee, v, u, anchor, round, b);
      ReachesInView(w, u, anchor, x);
      VoteAuthorsInView(w, u, x, b);
      CertifiedIsInHistory(ctx.committee, w, x, b);
    }
  }

  /** A view never takes a direct decision back: a skip is returned again on every larger view, and
      with waves of three rounds so is a commit. */
  lemma DirectDecisionIsStable(ctx: Context, opts: Options, u: Dag, byzantine: set<nat>, v: Dag, w: Dag, slot: Slot)
    requires BftUniverse(ctx, u, byzantine) && ViewOf(v, u) && ViewOf(w, u) && ViewOf(v, w)
    requires opts.Valid()
    requires DirectDecision(ctx.committee, opts, v, slot).Decided?
    requires var status := DirectDecision(ctx.committee, opts, v, slot).status;
             status.Skip? || (status.Commit? && opts.waveLength == 3 && opts.HasLeader(slot.round))
    ensures DirectDecision(ctx.committee, opts, w, slot) == DirectDecision(ctx.committee, opts, v, slot)
  {
    var c := ctx.committee;
    if EnoughBlame(c, v, slot) {
      BlameGrows(c, v, w, slot);
    } else {
      CertifyingRoundOfLeader(opts, slot.round);
      var b := DirectDecision(c, opts, v, slot).status.block;
      var round := opts.CertifyingRound(slot.round);
      assert b in SupportedLeaders(c, opts, v, slot);
      SupportGrows(c, v, w, round, b);
      var x := SupportGivesCertificate(c, v, u, round, b);
      if EnoughBlame(c, w, slot) { BlameExcludesCertificate(ctx, u, byzantine, w, slot, x, b); }
      DirectNeverPanics(ctx, opts, u, byzantine, w, slot);
    }
  }

  lemma BlameGrows(c: Committee, v: Dag, w: Dag, slot: Slot)
    requires ViewOf(v, w) && EnoughBlame(c, v, slot)
    ensures EnoughBlame(c, w, slot)
  {
    var few, many := BlameAuthors(v, slot.round + 1, slot.authority), BlameAuthors(w, slot.round + 1, slot.authority);
    forall a | a in few ensures a in many {
      var r :| r in v && r.round == slot.round + 1 && IsBlame(v, r, slot.authority) && r.author == a;
      assert IsBlame(w, r, slot.authority);
    }
    StakeMonotone(c, few, many);
  }

  lemma SupportGrows(c: Committee, v: Dag, w: Dag, round: nat, b: BlockRef)
    requires Causal(w) && ViewOf(v, w) && EnoughSupport(c, v, round, b)
    ensures EnoughSupport(c, w, round, b)
  {
    var few, many := CertificateAuthors(c, v, round, b), CertificateAuthors(c, w, round, b);
    forall a | a in few ensures a in many {
      var r :| r in v && r.round == round && IsCertificate(c, v, r, b) && r.author == a;
      VoteAuthorsInView(v, w, r, b);
    }
    StakeMonotone(c, few, many);
  }

  // ---------------------------------------------------------------- agreement

  /** Statuses of a prefix of the leader slots, each decided by the direct rule or, failing that,
      by the indirect rule from the statuses after it. `committers[i]` decides slots[i]. */
  ghost predicate Justified(c: Committee, d: Dag, committers: seq<Options>, slots: seq<Slot>, statuses: seq<LeaderStatus>)
    requires Causal(d) && LeaderSlots(committers, slots)
  {
    && |statuses| <= |slots|
    && forall i :: 0 <= i < |statuses| ==> JustifiedAt(c, d, committers[i], slots[i], statuses[i], statuses[i + 1..])
  }

  /** Each slot belongs to a committer with waves of three rounds that has a leader there. */
  ghost predicate LeaderSlots(committers: seq<Options>, slots: seq<Slot>) {
    && |committers| == |slots|
    && forall i :: 0 <= i < |slots| ==>
         committers[i].Valid() && committers[i].waveLength == 3 && committers[i].HasLeader(slots[i].round)
  }

  ghost predicate JustifiedAt(c: Committee, d: Dag, opts: Options, slot: Slot, status: LeaderStatus, later: seq<LeaderStatus>)
    requires Causal(d) && opts.Valid()
  {
    && CommitsIn(d, later)
    && if DirectDecision(c, opts, d, slot) != Decided(Undecided(slot))
       then DirectDecision(c, opts, d, slot) == Decided(status)
       else IndirectDecision(c, opts, d, slot, later) == Decided(status)
  }

  lemma DecisionKeepsSlot(c: Committee, d: Dag, opts: Options, slot: Slot, status: LeaderStatus, later: seq<LeaderStatus>)
    requires Causal(d) && opts.Valid() && JustifiedAt(c, d, opts, slot, status, later)
    ensures status.AsSlot() == slot
    ensures status.Commit? ==> status.block in d && status.block.round > 0
  {
    if status.Commit? {
      if DirectDecision(c, opts, d, slot) != Decided(Undecided(slot)) {
        assert status.block in SupportedLeaders(c, opts, d, slot);
      } else {
        AnchorInDag(opts, slot, d, later);
        assert status.block in LinkedLeaders(c, opts, d, Anchor(opts, slot, later).value, slot);
      }
    }
  }

  /** The anchor comes out the same from two lists that agree wherever both are decided. */
  lemma {:induction false} AnchorsAgree(opts: Options, slot: Slot, s: seq<LeaderStatus>, t: seq<LeaderStatus>)
    requires forall i :: 0 <= i < |s| && i < |t| ==> s[i].Round() == t[i].Round()
    requires forall i :: 0 <= i < |s| && i < |t| && s[i].IsDecided() && t[i].IsDecided() ==> s[i] == t[i]
    requires Anchor(opts, slot, s).Some? && Anchor(opts, slot, t).Some?
    ensures Anchor(opts, slot, s) == Anchor(opts, slot, t)
  {
    assert s[0].Round() == t[0].Round();
    assert s[0].IsDecided() && t[0].IsDecided() ==> s[0] == t[0];
    if s[0].Round() < slot.round + opts.waveLength || s[0].Skip? {
      AnchorsAgree(opts, slot, s[1..], t[1..]);
    }
  }

  /** How a decided slot was decided: 2f+1 blames, 2f+1 certificates, or a committed anchor. */
  lemma DecisionCases(c: Committee, d: Dag, opts: Options, slot: Slot, status: LeaderStatus, later: seq<LeaderStatus>)
    requires Causal(d) && opts.Valid() && JustifiedAt(c, d, opts, slot, status, later) && status.IsDecided()
    ensures || (status == Skip(slot) && EnoughBlame(c, d, slot))
            || (status.Commit? && status.block in SupportedLeaders(c, opts, d, slot))
            || (&& Anchor(opts, slot, later).Some?
                && Anchor(opts, slot, later).value in d
                && Anchor(opts, slot, later).value.round >= slot.round + opts.waveLength
                && DecisionFromAnchor(c, opts, d, Anchor(opts, slot, later).value, slot) == Decided(status))
  {
    AnchorInDag(opts, slot, d, later);
  }

  /** Two decisions of one slot coincide, given that the anchors coincide. */
  lemma SlotDecidedAlike(ctx: Context, opts: Options, u: Dag, byzantine: set<nat>, v: Dag, w: Dag, slot: Slot,
                         s: LeaderStatus, sLater: seq<LeaderStatus>, t: LeaderStatus, tLater: seq<LeaderStatus>)
    requires BftUniverse(ctx, u, byzantine) && ViewOf(v, u) && ViewOf(w, u)
    requires opts.Valid() && opts.waveLength == 3 && opts.HasLeader(slot.round)
    requires JustifiedAt(ctx.committee, v, opts, slot, s, sLater) && s.IsDecided()
    requires JustifiedAt(ctx.committee, w, opts, slot, t, tLater) && t.IsDecided()
    requires Anchor(opts, slot, sLater).Some? && Anchor(opts, slot, tLater).Some?
             ==> Anchor(opts, slot, sLater) == Anchor(opts, slot, tLater)
    ensures s == t
  {
    DecisionKeepsSlot(ctx.committee, v, opts, slot, s, sLater);
    DecisionKeepsSlot(ctx.committee, w, opts, slot, t, tLater);
    if s.Commit? {
      CommitMatches(ctx, opts, u, byzantine, v, w, slot, s, sLater, t, tLater);
    } else if t.Commit? {
      CommitMatches(ctx, opts, u, byzantine, w, v, slot, t, tLater, s, sLater);
    }
  }

  /** A commit in one view forces the same commit in every view that decides the slot. */
  lemma CommitMatches(ctx: Context, opts: Options, u: Dag, byzantine: set<nat>, v: Dag, w: Dag, slot: Slot,
                      s: LeaderStatus, sLater: seq<LeaderStatus>, t: LeaderStatus, tLater: seq<LeaderStatus>)
    requires BftUniverse(ctx, u, byzantine) && ViewOf(v, u) && ViewOf(w, u)
    requires opts.Valid() && opts.waveLength == 3 && opts.HasLeader(slot.round)
    requires JustifiedAt(ctx.committee, v, opts, slot, s, sLater) && s.Commit?
    requires JustifiedAt(ctx.committee, w, opts, slot, t, tLater) && t.IsDecided()
    requires Anchor(opts, slot, sLater).Some? && Anchor(opts, slot, tLater).Some?
             ==> Anchor(opts, slot, sLater) == Anchor(opts, slot, tLater)
    ensures s == t
  {
    var c := ctx.committee;
    var round := opts.CertifyingRound(slot.round);
    CertifyingRoundOfLeader(opts, slot.round);
    DecisionCases(c, v, opts, slot, s, sLater);
    DecisionCases(c, w, opts, slot, t, tLater);
    DecisionKeepsSlot(c, v, opts, slot, s, sLater);
    DecisionKeepsSlot(c, w, opts, slot, t, tLater);
    var b := s.block;
    var x := CommitHasCertificate(c, opts, v, u, slot, s, sLater);
    if t.Commit? {
      var y := CommitHasCertificate(c, opts, w, u, slot, t, tLater);
      OneCertifiedBlockPerSlot(ctx, u, byzantine, x, y, b, t.block);
    } else if EnoughBlame(c, w, slot) {
      BlameExcludesCertificate(ctx, u, byzantine, w, slot, x, b);
    } else {
      var anchor := Anchor(opts, slot, tLater).value;
      if b in SupportedLeaders(c, opts, v, slot) {
        SupportForcesLink(ctx, u, byzantine, v, w, round, b, anchor);
        AnchorNeverPanics(ctx, opts, u, byzantine, w, anchor, slot);
        assert b in LinkedLeaders(c, opts, w, anchor, slot);
      } else {
        AnchorDecidesAlike(ctx, opts, u, v, w, anchor, slot);
      }
    }
  }

  lemma CommitHasCertificate(c: Committee, opts: Options, v: Dag, u: Dag, slot: Slot,
                             s: LeaderStatus, sLater: seq<LeaderStatus>) returns (x: BlockRef)
    requires Causal(u) && ViewOf(v, u) && opts.Valid()
    requires JustifiedAt(c, v, opts, slot, s, sLater) && s.Commit?
    ensures x in u && x.round == opts.CertifyingRound(slot.round) && IsCertificate(c, u, x, s.block)
  {
    var round := opts.CertifyingRound(slot.round);
    DecisionCases(c, v, opts, slot, s, sLater);
    if s.block in SupportedLeaders(c, opts, v, slot) {
      x := SupportGivesCertificate(c, v, u, round, s.block);
    } else {
      var anchor := Anchor(opts, slot, sLater).value;
      assert s.block in LinkedLeaders(c, opts, v, anchor, slot);
      x := LinkGivesCertificate(c, v, u, anchor, round, s.block);
    }
  }

  /** Agreement: two authorities, with any two views of one universe, that decide a slot of the
      common slot sequence decide it identically, committed block included. One may have looked
      further ahead than the other. */
  lemma {:induction false} Agreement(ctx: Context, u: Dag, byzantine: set<nat>, v: Dag, w: Dag,
                                     committers: seq<Options>, slots: seq<Slot>,
                                     s: seq<LeaderStatus>, t: seq<LeaderStatus>, i: nat)
    requires BftUniverse(ctx, u, byzantine) && ViewOf(v, u) && ViewOf(w, u)
    requires LeaderSlots(committers, slots)
    requires Justified(ctx.committee, v, committers, slots, s)
    requires Justified(ctx.committee, w, committers, slots, t)
    requires i < |s| && i < |t| && s[i].IsDecided() && t[i].IsDecided()
    ensures s[i] == t[i]
    decreases |s| - i
  {
    var sLater, tLater := s[i + 1..], t[i + 1..];
    forall k | 0 <= k < |sLater| && k < |tLater|
      ensures sLater[k].Round() == tLater[k].Round()
      ensures sLater[k].IsDecided() && tLater[k].IsDecided() ==> sLater[k] == tLater[k]
    {
      var j := i + 1 + k;
      DecisionKeepsSlot(ctx.committee, v, committers[j], slots[j], s[j], s[j + 1..]);
      DecisionKeepsSlot(ctx.committee, w, committers[j], slots[j], t[j], t[j + 1..]);
      if s[j].IsDecided() && t[j].IsDecided() {
        Agreement(ctx, u, byzantine, v, w, committers, slots, s, t, j);
      }
    }
    if Anchor(committers[i], slots[i], sLater).Some? && Anchor(committers[i], slots[i], tLater).Some? {
      AnchorsAgree(committers[i], slots[i], sLater, tLater);
    }
    SlotDecidedAlike(ctx, committers[i], u, byzantine, v, w, slots[i], s[i], sLater, t[i], tLater);
  }
}
