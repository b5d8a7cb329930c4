/** The commit rule as mathematics: votes, certificates, blames, and the direct and indirect
    decision of a leader slot. The loops that compute these are in module BaseCommitter. */
module CommitRule {
  import opened Committees
  import opened Blocks
  import opened Dags

  const MINIMUM_WAVE_LENGTH: nat := 3

  /** Options of one committer: waves of `waveLength` rounds that start at `roundOffset`. */
  datatype Options = Options(waveLength: nat, leaderOffset: nat, roundOffset: nat) {
    predicate Valid() { waveLength >= MINIMUM_WAVE_LENGTH }

    function WaveNumber(round: nat): nat
      requires Valid()
    {
      (if round < roundOffset then 0 else round - roundOffset) / waveLength
    }

    function LeaderRound(wave: nat): nat { wave * waveLength + roundOffset }

    function DecisionRound(wave: nat): nat
      requires Valid()
    {
      wave * waveLength + waveLength - 1 + roundOffset
    }

    /** This committer has a leader in the round. */
    predicate HasLeader(round: nat)
      requires Valid()
    {
      LeaderRound(WaveNumber(round)) == round
    }

    /** The round whose blocks can certify a leader of the given round. */
    function CertifyingRound(round: nat): nat
      requires Valid()
    {
      DecisionRound(WaveNumber(round))
    }
  }

  datatype LeaderStatus = Commit(block: BlockRef) | Skip(slot: Slot) | Undecided(slot: Slot) {
    function Round(): nat {
      match this
      case Commit(b) => b.round
      case Skip(s) => s.round
      case Undecided(s) => s.round
    }

    function AsSlot(): Slot {
      match this
      case Commit(b) => b.AsSlot()
      case Skip(s) => s
      case Undecided(s) => s
    }

    predicate IsDecided() { !Undecided? }
  }

  /** What deciding a leader ends in; the source panics on two certified blocks in one slot. */
  datatype Outcome = Decided(status: LeaderStatus) | TwoCertifiedBlocks

  // ---------------------------------------------------------------- votes

  /** Depth-first search, in ancestor order, for the block that r supports at the slot. */
  function Supported(d: Dag, slot: Slot, r: BlockRef): Option<BlockRef>
    requires Causal(d) && r in d
    decreases r.round, 1, 0
  {
    assert CausalEntry(d, r);
    if r.round < slot.round then None else SupportedAmong(d, slot, r.round, d[r].ancestors)
  }

  function SupportedAmong(d: Dag, slot: Slot, bound: nat, refs: seq<BlockRef>): Option<BlockRef>
    requires Causal(d)
    requires forall i :: 0 <= i < |refs| ==> refs[i] in d && refs[i].round < bound
    decreases bound, 0, |refs|
  {
    if refs == [] then None
    else if refs[0].AsSlot() == slot then Some(refs[0])
    else if refs[0].round <= slot.round then SupportedAmong(d, slot, bound, refs[1..])
    else
      var deeper := Supported(d, slot, refs[0]);
      if deeper.Some? then deeper else SupportedAmong(d, slot, bound, refs[1..])
  }

  predicate IsVote(d: Dag, vote: BlockRef, leader: BlockRef)
    requires Causal(d) && vote in d
  {
    Supported(d, leader.AsSlot(), vote) == Some(leader)
  }

  /** Authors of the ancestors of `cert` that vote for `leader`. */
  ghost function VoteAuthors(d: Dag, cert: BlockRef, leader: BlockRef): set<nat>
    requires Causal(d) && cert in d
  {
    assert CausalEntry(d, cert);
    set i | 0 <= i < |d[cert].ancestors| && IsVote(d, d[cert].ancestors[i], leader) :: d[cert].ancestors[i].author
  }

  ghost predicate IsCertificate(c: Committee, d: Dag, cert: BlockRef, leader: BlockRef)
    requires Causal(d) && cert in d
  {
    c.IsQuorum(VoteAuthors(d, cert, leader))
  }

  // ---------------------------------------------------------------- direct rule

  /** A block that references no block of the authority at all. */
  ghost predicate IsBlame(d: Dag, r: BlockRef, authority: nat)
    requires r in d
  {
    forall i :: 0 <= i < |d[r].ancestors| ==> d[r].ancestors[i].author != authority
  }

  ghost function BlameAuthors(d: Dag, votingRound: nat, authority: nat): set<nat> {
    set r | r in d && r.round == votingRound && IsBlame(d, r, authority) :: r.author
  }

  ghost predicate EnoughBlame(c: Committee, d: Dag, slot: Slot) {
    c.IsQuorum(BlameAuthors(d, slot.round + 1, slot.authority))
  }

  ghost function CertificateAuthors(c: Committee, d: Dag, decisionRound: nat, leader: BlockRef): set<nat>
    requires Causal(d)
  {
    set r | r in d && r.round == decisionRound && IsCertificate(c, d, r, leader) :: r.author
  }

  ghost predicate EnoughSupport(c: Committee, d: Dag, decisionRound: nat, leader: BlockRef)
    requires Causal(d)
  {
    c.IsQuorum(CertificateAuthors(c, d, decisionRound, leader))
  }

  /** Blocks of the slot; genesis blocks are never leaders. */
  ghost function LeaderBlocks(d: Dag, slot: Slot): set<BlockRef> {
    set r | r in d && r.AsSlot() == slot && r.round != GENESIS_ROUND
  }

  ghost function SupportedLeaders(c: Committee, opts: Options, d: Dag, slot: Slot): set<BlockRef>
    requires Causal(d) && opts.Valid()
  {
    set r | r in LeaderBlocks(d, slot) && EnoughSupport(c, d, opts.CertifyingRound(slot.round), r)
  }

  ghost function DirectDecision(c: Committee, opts: Options, d: Dag, slot: Slot): Outcome
    requires Causal(d) && opts.Valid()
  {
    if EnoughBlame(c, d, slot) then Decided(Skip(slot))
    else ChooseLeader(SupportedLeaders(c, opts, d, slot), Undecided(slot))
  }

  /** The only candidate, the fallback when there is none, a panic when there are several. */
  ghost function ChooseLeader(candidates: set<BlockRef>, fallback: LeaderStatus): Outcome {
    if |candidates| > 1 then TwoCertifiedBlocks
    else if candidates == {} then Decided(fallback)
    else var r :| r in candidates; Decided(Commit(r))
  }

  lemma ChooseUnique(candidates: set<BlockRef>, fallback: LeaderStatus, r: BlockRef)
    requires r in candidates
    requires forall x, y :: x in candidates && y in candidates ==> x == y
    ensures ChooseLeader(candidates, fallback) == Decided(Commit(r))
  {
    assert candidates == {r};
  }

  // ---------------------------------------------------------------- indirect rule

  /** r has a certificate of the decision round in the history of the anchor. */
  ghost predicate HasCertifiedLink(c: Committee, d: Dag, anchor: BlockRef, decisionRound: nat, r: BlockRef)
    requires Causal(d) && anchor in d
  {
    exists x :: x in d && x.round == decisionRound && x != anchor && Reaches(d, anchor, x) && IsCertificate(c, d, x, r)
  }

  ghost function LinkedLeaders(c: Committee, opts: Options, d: Dag, anchor: BlockRef, slot: Slot): set<BlockRef>
    requires Causal(d) && opts.Valid() && anchor in d
  {
    set r | r in LeaderBlocks(d, slot) && HasCertifiedLink(c, d, anchor, opts.CertifyingRound(slot.round), r)
  }

  ghost function DecisionFromAnchor(c: Committee, opts: Options, d: Dag, anchor: BlockRef, slot: Slot): Outcome
    requires Causal(d) && opts.Valid() && anchor in d
  {
    ChooseLeader(LinkedLeaders(c, opts, d, anchor, slot), Skip(slot))
  }

  /** The first later leader, past the decision round, that is not skipped. */
  ghost function Anchor(opts: Options, slot: Slot, later: seq<LeaderStatus>): Option<BlockRef> {
    if later == [] then None
    else if later[0].Round() < slot.round + opts.waveLength || later[0].Skip? then Anchor(opts, slot, later[1..])
    else if later[0].Commit? then Some(later[0].block)
    else None
  }

  ghost predicate CommitsIn(d: Dag, statuses: seq<LeaderStatus>) {
    forall i :: 0 <= i < |statuses| && statuses[i].Commit? ==> statuses[i].block in d
  }

  lemma {:induction false} AnchorInDag(opts: Options, slot: Slot, d: Dag, later: seq<LeaderStatus>)
    requires CommitsIn(d, later)
    ensures Anchor(opts, slot, later).Some? ==>
              Anchor(opts, slot, later).value in d && Anchor(opts, slot, later).value.round >= slot.round + opts.waveLength
  {
    if later != [] {
      assert CommitsIn(d, later[1..]) by {
        forall i | 0 <= i < |later[1..]| && later[1..][i].Commit? ensures later[1..][i].block in d {
          assert later[1..][i] == later[i + 1];
        }
      }
      AnchorInDag(opts, slot, d, later[1..]);
    }
  }

  ghost function IndirectDecision(c: Committee, opts: Options, d: Dag, slot: Slot, later: seq<LeaderStatus>): Outcome
    requires Causal(d) && opts.Valid() && CommitsIn(d, later)
  {
    AnchorInDag(opts, slot, d, later);
    match Anchor(opts, slot, later)
    case Some(anchor) => DecisionFromAnchor(c, opts, d, anchor, slot)
    case None => Decided(Undecided(slot))
  }

  // ---------------------------------------------------------------- wave arithmetic

  /** A leader is certified exactly waveLength - 1 rounds above it. */
  lemma CertifyingRoundOfLeader(opts: Options, round: nat)
    requires opts.Valid() && opts.HasLeader(round)
    ensures opts.CertifyingRound(round) == round + opts.waveLength - 1
  {
  }

  /** In a pipeline of waveLength offsets every round is the leader round of exactly one committer. */
  lemma PipelineCoversRound(waveLength: nat, round: nat, offset: nat)
    requires waveLength >= MINIMUM_WAVE_LENGTH && offset < waveLength
    ensures Options(waveLength, 0, offset).HasLeader(round) <==> round % waveLength == offset
  {
    var opts := Options(waveLength, 0, offset);
    if round >= offset {
      var w := opts.WaveNumber(round);
      assert round - offset == w * waveLength + (round - offset) % waveLength;
      if opts.HasLeader(round) {
        Remainder(w, waveLength, offset);
      } else if round % waveLength == offset {
        var q := round / waveLength;
        assert round == q * waveLength + offset;
        assert (q * waveLength) / waveLength == q by { Remainder(q, waveLength, 0); }
      }
    } else {
      assert opts.WaveNumber(round) == 0;
      assert round % waveLength == round by { Remainder(0, waveLength, round); }
    }
  }

  lemma Remainder(q: nat, d: nat, r: nat)
    requires r < d
    ensures (q * d + r) % d == r && (q * d + r) / d == q
  {
    var k := (q * d + r) / d;
    if k > q { TimesMonotone(q + 1, k, d); }
    if k < q { TimesMonotone(k + 1, q, d); }
  }

  lemma TimesMonotone(a: nat, b: nat, d: nat)
    requires a <= b
    ensures a * d <= b * d
  {
  }
}
