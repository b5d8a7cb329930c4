/** The committer accepts any wave length from 3 up, but counts blames one round above the leader
    only. This module shows that 3 is the only length for which direct decisions are safe. */
module WaveLength {
  import opened Blocks
  import opened BlockVerifier
  import opened Dags
  import opened CommitRule
  import opened CommitSafety
  import opened SplitDags

  ghost predicate DecidesDirectly(ctx: Context, opts: Options, v: Dag, slot: Slot)
    requires Causal(v) && opts.Valid()
  {
    var o := DirectDecision(ctx.committee, opts, v, slot);
    o.Decided? && o.status.IsDecided()
  }

  /** No two views of the universe decide a leader slot directly and differently. */
  ghost predicate SafeIn(ctx: Context, u: Dag, opts: Options)
    requires opts.Valid()
  {
    forall v, w, slot: Slot ::
      && ViewOf(v, u) && ViewOf(w, u) && opts.HasLeader(slot.round)
      && DecidesDirectly(ctx, opts, v, slot) && DecidesDirectly(ctx, opts, w, slot)
      ==> DirectDecision(ctx.committee, opts, v, slot) == DirectDecision(ctx.committee, opts, w, slot)
  }

  /** No view that grows takes a direct decision back. */
  ghost predicate StableIn(ctx: Context, u: Dag, opts: Options)
    requires opts.Valid()
  {
    forall v, w, slot: Slot ::
      ViewOf(v, u) && ViewOf(w, u) && ViewOf(v, w) && opts.HasLeader(slot.round) && DecidesDirectly(ctx, opts, v, slot)
      ==> DirectDecision(ctx.committee, opts, v, slot) == DirectDecision(ctx.committee, opts, w, slot)
  }

  /** No slot is both blamed by 2f+1 in some view and certified somewhere. */
  ghost predicate UncertifiedIn(ctx: Context, u: Dag, opts: Options)
    requires Causal(u) && opts.Valid()
  {
    forall v, slot: Slot, x, b: BlockRef ::
      && ViewOf(v, u) && opts.HasLeader(slot.round) && EnoughBlame(ctx.committee, v, slot)
      && x in u && x.round == opts.CertifyingRound(slot.round) && b.AsSlot() == slot
      ==> !IsCertificate(ctx.committee, u, x, b)
  }

  // A wave length has one of these properties when it has it in every universe.

  ghost predicate DirectRuleIsSafe(waveLength: nat) {
    forall ctx, u, byzantine, opts: Options ::
      BftUniverse(ctx, u, byzantine) && opts.Valid() && opts.waveLength == waveLength ==> SafeIn(ctx, u, opts)
  }

  ghost predicate DirectRuleIsStable(waveLength: nat) {
    forall ctx, u, byzantine, opts: Options ::
      BftUniverse(ctx, u, byzantine) && opts.Valid() && opts.waveLength == waveLength ==> StableIn(ctx, u, opts)
  }

  ghost predicate BlameExcludes(waveLength: nat) {
    forall ctx, u, byzantine, opts: Options ::
      BftUniverse(ctx, u, byzantine) && opts.Valid() && opts.waveLength == waveLength ==> UncertifiedIn(ctx, u, opts)
  }

  lemma SafeExactlyForThree(waveLength: nat)
    requires waveLength >= MINIMUM_WAVE_LENGTH
    ensures DirectRuleIsSafe(waveLength) <==> waveLength == 3
  {
    hide SafeIn;
    if waveLength == 3 {
      forall ctx, u, byzantine, opts: Options |
        BftUniverse(ctx, u, byzantine) && opts.Valid() && opts.waveLength == waveLength
        ensures SafeIn(ctx, u, opts)
      {
        ThreeIsSafe(ctx, u, byzantine, opts);
      }
    } else {
      SplitIsUnsafe(waveLength);
      SplitDagIsBft(waveLength, true);
    }
  }

  lemma StableExactlyForThree(waveLength: nat)
    requires waveLength >= MINIMUM_WAVE_LENGTH
    ensures DirectRuleIsStable(waveLength) <==> waveLength == 3
  {
    hide StableIn;
    if waveLength == 3 {
      forall ctx, u, byzantine, opts: Options |
        BftUniverse(ctx, u, byzantine) && opts.Valid() && opts.waveLength == waveLength
        ensures StableIn(ctx, u, opts)
      {
        ThreeIsStable(ctx, u, byzantine, opts);
      }
    } else {
      SplitIsUnsafe(waveLength);
      SplitDagIsBft(waveLength, true);
    }
  }

  lemma BlameExcludesCertificateExactlyForThree(waveLength: nat)
    requires waveLength >= MINIMUM_WAVE_LENGTH
    ensures BlameExcludes(waveLength) <==> waveLength == 3
  {
    hide UncertifiedIn;
    if waveLength == 3 {
      forall ctx, u, byzantine, opts: Options |
        BftUniverse(ctx, u, byzantine) && opts.Valid() && opts.waveLength == waveLength
        ensures UncertifiedIn(ctx, u, opts)
      {
        ThreeExcludes(ctx, u, byzantine, opts);
      }
    } else {
      SplitIsCertified(waveLength);
      SplitDagIsBft(waveLength, true);
    }
  }

  // ---------------------------------------------------------------- three rounds

  lemma ThreeIsSafe(ctx: Context, u: Dag, byzantine: set<nat>, opts: Options)
    requires BftUniverse(ctx, u, byzantine) && opts.Valid() && opts.waveLength == 3
    ensures SafeIn(ctx, u, opts)
  {
    forall v, w, slot: Slot |
      && ViewOf(v, u) && ViewOf(w, u) && opts.HasLeader(slot.round)
      && DecidesDirectly(ctx, opts, v, slot) && DecidesDirectly(ctx, opts, w, slot)
      ensures DirectDecision(ctx.committee, opts, v, slot) == DirectDecision(ctx.committee, opts, w, slot)
    {
      DirectAgrees(ctx, u, byzantine, opts, v, w, slot);
    }
  }

  lemma DirectAgrees(ctx: Context, u: Dag, byzantine: set<nat>, opts: Options, v: Dag, w: Dag, slot: Slot)
    requires BftUniverse(ctx, u, byzantine) && opts.Valid() && opts.waveLength == 3 && opts.HasLeader(slot.round)
    requires ViewOf(v, u) && ViewOf(w, u) && DecidesDirectly(ctx, opts, v, slot) && DecidesDirectly(ctx, opts, w, slot)
    ensures DirectDecision(ctx.committee, opts, v, slot) == DirectDecision(ctx.committee, opts, w, slot)
  {
    hide CausalEntry;
    hide ValidEntry;
    hide EnoughSupport;
    hide EnoughBlame;
    var c, round := ctx.committee, opts.CertifyingRound(slot.round);
    CertifyingRoundOfLeader(opts, slot.round);
    if EnoughBlame(c, v, slot) {
      if !EnoughBlame(c, w, slot) { BlamedIsUncommitted(ctx, u, byzantine, opts, v, w, slot); }
    } else if EnoughBlame(c, w, slot) {
      BlamedIsUncommitted(ctx, u, byzantine, opts, w, v, slot);
    } else {
      var b, b' := DirectDecision(c, opts, v, slot).status.block, DirectDecision(c, opts, w, slot).status.block;
      var x := SupportGivesCertificate(c, v, u, round, b);
      var y := SupportGivesCertificate(c, w, u, round, b');
      OneCertifiedBlockPerSlot(ctx, u, byzantine, x, y, b, b');
    }
  }

  lemma BlamedIsUncommitted(ctx: Context, u: Dag, byzantine: set<nat>, opts: Options, v: Dag, w: Dag, slot: Slot)
    requires BftUniverse(ctx, u, byzantine) && opts.Valid() && opts.waveLength == 3 && opts.HasLeader(slot.round)
    requires ViewOf(v, u) && ViewOf(w, u) && EnoughBlame(ctx.committee, v, slot)
    ensures SupportedLeaders(ctx.committee, opts, w, slot) == {}
  {
    CertifyingRoundOfLeader(opts, slot.round);
    var round := opts.CertifyingRound(slot.round);
    forall b | b in SupportedLeaders(ctx.committee, opts, w, slot) ensures false {
      var x := SupportGivesCertificate(ctx.committee, w, u, round, b);
      BlameExcludesCertificate(ctx, u, byzantine, v, slot, x, b);
    }
  }

  lemma ThreeIsStable(ctx: Context, u: Dag, byzantine: set<nat>, opts: Options)
    requires BftUniverse(ctx, u, byzantine) && opts.Valid() && opts.waveLength == 3
    ensures StableIn(ctx, u, opts)
  {
    forall v, w, slot: Slot |
      ViewOf(v, u) && ViewOf(w, u) && ViewOf(v, w) && opts.HasLeader(slot.round) && DecidesDirectly(ctx, opts, v, slot)
      ensures DirectDecision(ctx.committee, opts, v, slot) == DirectDecision(ctx.committee, opts, w, slot)
    {
      DirectDecisionIsStable(ctx, opts, u, byzantine, v, w, slot);
    }
  }

  lemma ThreeExcludes(ctx: Context, u: Dag, byzantine: set<nat>, opts: Options)
    requires BftUniverse(ctx, u, byzantine) && opts.Valid() && opts.waveLength == 3
    ensures UncertifiedIn(ctx, u, opts)
  {
    forall v, slot: Slot, x, b: BlockRef |
      && ViewOf(v, u) && opts.HasLeader(slot.round) && EnoughBlame(ctx.committee, v, slot)
      && x in u && x.round == opts.CertifyingRound(slot.round) && b.AsSlot() == slot
      ensures !IsCertificate(ctx.committee, u, x, b)
    {
      CertifyingRoundOfLeader(opts, slot.round);
      BlameExcludesCertificate(ctx, u, byzantine, v, slot, x, b);
    }
  }

  // ---------------------------------------------------------------- longer waves

  /** For every longer wave: nobody is faulty, and one view skips what another one commits. */
  lemma SplitIsUnsafe(waveLength: nat)
    requires waveLength > 3
    ensures !SafeIn(Four(), SplitDag(waveLength, true), Options(waveLength, 0, 1))
    ensures !StableIn(Four(), SplitDag(waveLength, true), Options(waveLength, 0, 1))
  {
    hide SplitDag;
    hide DirectDecision;
    var u, v, opts := SplitDag(waveLength, true), SplitDag(waveLength, false), Options(waveLength, 0, 1);
    SplitDecisions(waveLength);
    SplitView(waveLength);
    assert ViewOf(u, u);
    assert DecidesDirectly(Four(), opts, v, Slot(1, 2)) && DecidesDirectly(Four(), opts, u, Slot(1, 2));
  }

  lemma SplitIsCertified(waveLength: nat)
    requires waveLength > 3
    ensures Causal(SplitDag(waveLength, true)) && !UncertifiedIn(Four(), SplitDag(waveLength, true), Options(waveLength, 0, 1))
  {
    hide SplitDag;
    hide IsCertificate;
    var u := SplitDag(waveLength, true);
    SplitBlames(waveLength);
    SplitCertificate(waveLength, true, waveLength, 0);
    SplitRounds(waveLength);
    assert ViewOf(u, u);
  }
}
