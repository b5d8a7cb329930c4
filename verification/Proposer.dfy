/** Proposing blocks: which ancestors a new block takes, and the order in which it is accepted,
    persisted and sent. A crash keeps only what has been persisted or sent. */
module Proposer {
  import opened Committees
  import opened StakeAggregators
  import opened Blocks
  import opened BlockVerifier
  import opened Dags
  import opened BaseCommitter
  import opened ThresholdClocks

  // ---------------------------------------------------------------- what is kept

  ghost predicate Sound(ctx: Context, own: nat, d: Dag) {
    ValidDag(ctx, d) && HasGenesis(ctx, d) && OwnChain(d, own) && ctx.committee.IsValidIndex(own)
  }

  /** `last` is the newest block of its author. */
  ghost predicate Newest(d: Dag, own: nat, last: BlockRef) {
    last in d && last.author == own && forall r :: r in d && r.author == own ==> r.round <= last.round
  }

  /** What was included before is older than the last proposal. */
  ghost predicate Watermarks(included: map<nat, BlockRef>, last: BlockRef) {
    forall a :: a in included ==> included[a].author == a && included[a].round < last.round
  }

  /** Every given ancestor was included, or a later one of its author. */
  ghost predicate Covers(included: map<nat, BlockRef>, ancestors: seq<BlockRef>) {
    forall i :: 0 <= i < |ancestors| ==> ancestors[i].author in included && included[ancestors[i].author].round >= ancestors[i].round
  }

  ghost predicate Within(d: Dag, d': Dag) {
    forall r :: r in d ==> r in d' && d[r] == d'[r]
  }

  // ---------------------------------------------------------------- ancestors of a proposal

  predicate Later(r: BlockRef, s: BlockRef) {
    r.round > s.round || (r.round == s.round && r.digest > s.digest)
  }

  /** The last block of an authority below a round, in the order of references. */
  ghost predicate LastBelow(d: Dag, a: nat, end: nat, r: BlockRef) {
    && r in d && r.author == a && r.round < end
    && forall s :: s in d && s.author == a && s.round < end ==> !Later(s, r)
  }

  predicate Fresh(included: map<nat, BlockRef>, r: BlockRef) {
    r.author in included ==> included[r.author].round < r.round
  }

  method FindLastBelow(d: Dag, a: nat, end: nat) returns (last: BlockRef)
    requires exists r :: r in d && r.author == a && r.round < end
    ensures LastBelow(d, a, end, last)
    ensures last in d && last.author == a && last.round < end
    ensures forall s :: s in d && s.author == a && s.round < end ==> s.round < last.round || (s.round == last.round && s.digest <= last.digest)
  {
    var candidates := set r | r in d && r.author == a && r.round < end;
    var list := ListOf(candidates);
    var r :| r in d && r.author == a && r.round < end;
    assert r in list;
    last := list[0];
    for i := 1 to |list|
      invariant last in candidates && forall j :: 0 <= j < i ==> !Later(list[j], last)
    {
      if Later(list[i], last) { last := list[i]; }
    }
    forall s | s in candidates ensures !Later(s, last) { assert s in list; }
  }

  ghost predicate Represented(ancestors: seq<BlockRef>, s: BlockRef) {
    exists i :: 0 < i < |ancestors| && ancestors[i].author == s.author && ancestors[i].round >= s.round
  }

  ghost predicate Pick(d: Dag, own: nat, included: map<nat, BlockRef>, end: nat, r: BlockRef) {
    r.author != own && LastBelow(d, r.author, end, r) && Fresh(included, r)
  }

  /** The ancestors of a block of round `end`, from the first n authorities: own last block first,
      then the last block of each other authority unless nothing of it is new. */
  ghost predicate Chosen(d: Dag, n: nat, own: nat, last: BlockRef, included: map<nat, BlockRef>, end: nat, ancestors: seq<BlockRef>) {
    && 0 < |ancestors| <= n + (if own < n then 0 else 1) && ancestors[0] == last
    && (forall i :: 0 < i < |ancestors| ==> ancestors[i].author < n && Pick(d, own, included, end, ancestors[i]))
    && (forall i, j :: 0 < i < j < |ancestors| ==> ancestors[i].author < ancestors[j].author)
    && forall s :: s in d && s.author < n && s.author != own && s.round < end && Fresh(included, s) ==> Represented(ancestors, s)
  }

  /** Own last block, then a block of another authority, none later in the order of round and digest,
      for every authority with a block above the round included before, and for no other. */
  ghost predicate NewestOfOthers(d: Dag, own: nat, last: BlockRef, included: map<nat, BlockRef>, end: nat, ancestors: seq<BlockRef>) {
    && ancestors != [] && ancestors[0] == last
    && (forall i :: 0 < i < |ancestors| ==>
          && ancestors[i] in d && ancestors[i].author != own && ancestors[i].round < end
          && (ancestors[i].author in included ==> included[ancestors[i].author].round < ancestors[i].round))
    && (forall i, s :: 0 < i < |ancestors| && s in d && s.author == ancestors[i].author && s.round < end ==>
          s.round < ancestors[i].round || (s.round == ancestors[i].round && s.digest <= ancestors[i].digest))
    && forall s :: s in d && s.author != own && s.round < end && (s.author in included ==> included[s.author].round < s.round) ==>
         exists i :: 0 < i < |ancestors| && ancestors[i].author == s.author
  }

  lemma ChosenNext(d: Dag, n: nat, own: nat, last: BlockRef, included: map<nat, BlockRef>, end: nat, ancestors: seq<BlockRef>, r: BlockRef)
    requires Chosen(d, n, own, last, included, end, ancestors) && n != own && LastBelow(d, n, end, r)
    ensures Chosen(d, n + 1, own, last, included, end, if Fresh(included, r) then ancestors + [r] else ancestors)
  {
    hide LastBelow;
    hide Represented;
    var next := if Fresh(included, r) then ancestors + [r] else ancestors;
    LastIsNamed(d, n, end, r);
    forall s | s in d && s.author < n + 1 && s.author != own && s.round < end && Fresh(included, s) ensures Represented(next, s) {
      if s.author < n {
        StillRepresented(ancestors, next, s);
      } else {
        LastRepresents(d, included, end, ancestors, r, s);
      }
    }
    assert forall i :: 0 < i < |ancestors| ==> next[i] == ancestors[i];
  }

  lemma LastIsNamed(d: Dag, a: nat, end: nat, r: BlockRef)
    requires LastBelow(d, a, end, r)
    ensures r.author == a
  {
  }

  lemma StillRepresented(ancestors: seq<BlockRef>, next: seq<BlockRef>, s: BlockRef)
    requires Represented(ancestors, s) && ancestors <= next
    ensures Represented(next, s)
  {
    var i :| 0 < i < |ancestors| && ancestors[i].author == s.author && ancestors[i].round >= s.round;
    assert next[i] == ancestors[i];
  }

  lemma LastRepresents(d: Dag, included: map<nat, BlockRef>, end: nat, ancestors: seq<BlockRef>, r: BlockRef, s: BlockRef)
    requires LastBelow(d, s.author, end, r) && s in d && s.round < end && Fresh(included, s) && ancestors != []
    ensures Fresh(included, r) && Represented(ancestors + [r], s)
  {
    assert !Later(s, r);
    assert (ancestors + [r])[|ancestors|] == r;
  }

  lemma ChosenOwn(d: Dag, n: nat, last: BlockRef, included: map<nat, BlockRef>, end: nat, ancestors: seq<BlockRef>)
    requires Chosen(d, n, n, last, included, end, ancestors)
    ensures Chosen(d, n + 1, n, last, included, end, ancestors)
  {
  }

  /** All of the quorum below the clock is represented: what was included before is older. */
  lemma ChosenHasQuorum(c: Committee, d: Dag, own: nat, last: BlockRef, included: map<nat, BlockRef>, end: nat, b: Block)
    requires Chosen(d, c.Size(), own, last, included, end, b.ancestors) && b.round == end
    requires Newest(d, own, last) && Watermarks(included, last) && last.round < end
    requires forall r :: r in d ==> c.IsValidIndex(r.author)
    requires c.IsQuorum(AuthorsAt(d, end - 1))
    ensures c.IsQuorum(b.ParentAuthors())
  {
    ChosenParents(c, d, own, last, included, end, b.ancestors);
    forall a | a in SeenAt(b.ancestors, end - 1) ensures a in b.ParentAuthors() {
      var i :| 0 <= i < |b.ancestors| && b.ancestors[i].round == end - 1 && b.ancestors[i].author == a;
    }
    StakeMonotone(c, SeenAt(b.ancestors, end - 1), b.ParentAuthors());
  }

  lemma KnownAuthor(ctx: Context, d: Dag, r: BlockRef)
    requires ValidDag(ctx, d) && r in d
    ensures ctx.committee.IsValidIndex(r.author) && (r.round == GENESIS_ROUND ==> r in ctx.genesis)
  {
    assert CausalEntry(d, r) && ValidEntry(ctx, d, r);
  }

  /** A block built on the chosen ancestors passes every structural rule. */
  lemma ChosenIsValid(ctx: Context, d: Dag, own: nat, last: BlockRef, included: map<nat, BlockRef>, end: nat, b: Block)
    requires Sound(ctx, own, d) && Newest(d, own, last) && Watermarks(included, last) && last.round < end
    requires Chosen(d, ctx.committee.Size(), own, last, included, end, b.ancestors) && b.round == end && b.author == own
    requires ctx.committee.IsQuorum(AuthorsAt(d, end - 1))
    ensures ValidAncestors(ctx, b) && forall i :: 0 <= i < |b.ancestors| ==> b.ancestors[i] in d
  {
    hide ValidDag;
    hide Represented;
    forall r | r in d ensures ctx.committee.IsValidIndex(r.author) { KnownAuthor(ctx, d, r); }
    ChosenHasQuorum(ctx.committee, d, own, last, included, end, b);
    forall i | 0 <= i < |b.ancestors|
      ensures b.ancestors[i] in d && b.ancestors[i].round < end && (i == 0 <==> b.ancestors[i].author == own)
      ensures b.ancestors[i].round == GENESIS_ROUND ==> b.ancestors[i] in ctx.genesis
    {
      assert i > 0 ==> Pick(d, own, included, end, b.ancestors[i]);
      KnownAuthor(ctx, d, b.ancestors[i]);
    }
  }

  // ---------------------------------------------------------------- accepting the proposal

  /** Adding the new block keeps the DAG sound and the new block is now the newest. */
  lemma AcceptOwn(ctx: Context, own: nat, d: Dag, last: BlockRef, ref: BlockRef, b: Block)
    requires Sound(ctx, own, d) && Newest(d, own, last)
    requires ref.author == own == b.author && ref.round == b.round > last.round
    requires ValidBlock(ctx, b) && b.ancestors[0] == last && forall i :: 0 <= i < |b.ancestors| ==> b.ancestors[i] in d
    ensures ref !in d && Sound(ctx, own, d[ref := b]) && Newest(d[ref := b], own, ref) && Within(d, d[ref := b])
  {
    var d' := d[ref := b];
    forall r | r in d' ensures CausalEntry(d', r) && ValidEntry(ctx, d', r) {
      if r != ref { assert CausalEntry(d, r) && ValidEntry(ctx, d, r); }
    }
    forall r, s | r in d' && s in d' && r.author == own && s.author == own && r.round <= s.round ensures FollowsOwn(d', r, s) {
      if s != ref { assert FollowsOwn(d, r, s); }
    }
  }

  lemma OwnChainSame(own: nat, d: Dag, d': Dag)
    requires Within(d, d') && OwnChain(d, own) && forall r :: r in d' && r.author == own ==> r in d
    ensures OwnChain(d', own)
  {
    forall r, s | r in d' && s in d' && r.author == own && s.author == own && r.round <= s.round ensures FollowsOwn(d', r, s) {
      assert FollowsOwn(d, r, s);
    }
  }

  // ---------------------------------------------------------------- reading a recovered DAG

  method HighestRound(d: Dag) returns (highest: nat)
    requires d != map[]
    ensures (exists r :: r in d && r.round == highest) && forall r :: r in d ==> r.round <= highest
  {
    var list := ListOf(d.Keys);
    assert list != [] by {
      var r :| r in d;
      assert r in list;
    }
    highest := list[0].round;
    for i := 1 to |list|
      invariant (exists r :: r in d && r.round == highest) && forall j :: 0 <= j < i ==> list[j].round <= highest
    {
      if list[i].round > highest { highest := list[i].round; }
    }
    forall r | r in d ensures r.round <= highest { assert r in list; }
  }

  /** Whether the blocks of a round, among those given, come from a quorum of authors. */
  method FormQuorum(c: Committee, blocks: seq<BlockRef>, round: nat) returns (reached: bool)
    requires KnownAuthors(c, blocks)
    ensures reached <==> c.IsQuorum(SeenAt(blocks, round))
  {
    var quorum := new StakeAggregator(Quorum, c);
    NoEmptyQuorum(c);
    assert SeenAt(blocks[..0], round) == {};
    for i := 0 to |blocks|
      invariant fresh(quorum) && quorum.Valid(c) && quorum.threshold == Quorum
      invariant quorum.votes == SeenAt(blocks[..i], round) && !c.IsQuorum(quorum.votes)
    {
      assert blocks[..i + 1][..i] == blocks[..i];
      SeenAtSnoc(blocks[..i + 1], round);
      if blocks[i].round == round {
        var more := quorum.Add(blocks[i].author, c);
        if more {
          SeenAtPrefix(blocks, i + 1, round);
          StakeMonotone(c, quorum.votes, SeenAt(blocks, round));
          return true;
        }
      }
    }
    assert blocks[..|blocks|] == blocks;
    return false;
  }

  lemma SeenAtPrefix(blocks: seq<BlockRef>, n: nat, round: nat)
    requires n <= |blocks|
    ensures SeenAt(blocks[..n], round) <= SeenAt(blocks, round)
  {
    forall a | a in SeenAt(blocks[..n], round) ensures a in SeenAt(blocks, round) {
      var i :| 0 <= i < n && blocks[..n][i].round == round && blocks[..n][i].author == a;
      assert blocks[i] == blocks[..n][i];
    }
  }

  lemma SeenIsAuthors(d: Dag, blocks: seq<BlockRef>, round: nat)
    requires forall r :: r in blocks <==> r in d && r.round == round
    ensures SeenAt(blocks, round) == AuthorsAt(d, round)
  {
    forall a | a in AuthorsAt(d, round) ensures a in SeenAt(blocks, round) {
      var r :| r in d && r.round == round && r.author == a;
      assert r in blocks;
    }
    forall a | a in SeenAt(blocks, round) ensures a in AuthorsAt(d, round) {
      var i :| 0 <= i < |blocks| && blocks[i].round == round && blocks[i].author == a;
      assert blocks[i] in blocks;
    }
  }

  lemma ListedAuthors(ctx: Context, d: Dag, blocks: seq<BlockRef>)
    requires ValidDag(ctx, d) && forall i :: 0 <= i < |blocks| ==> blocks[i] in d
    ensures KnownAuthors(ctx.committee, blocks)
  {
    forall i | 0 <= i < |blocks| ensures ctx.committee.IsValidIndex(blocks[i].author) { KnownAuthor(ctx, d, blocks[i]); }
  }

  lemma GenesisIsQuorum(ctx: Context, d: Dag)
    requires ValidDag(ctx, d) && HasGenesis(ctx, d)
    ensures ctx.committee.IsQuorum(AuthorsAt(d, 0))
  {
    forall a | 0 <= a < ctx.committee.Size() ensures a in AuthorsAt(d, 0) {
      assert HasGenesisOf(ctx, a);
      var g :| g in ctx.genesis && g.author == a;
      assert g in d;
    }
    StakeAtMostTotal(ctx.committee, AuthorsAt(d, 0));
    ThresholdsComplement(ctx.committee);
  }

  /** The blocks of the last round that has a quorum: it is one of the last two, so recovery never
      finds itself without one. */
  method LastQuorum(ctx: Context, d: Dag) returns (blocks: seq<BlockRef>, round: nat)
    requires ValidDag(ctx, d) && HasGenesis(ctx, d)
    ensures LastQuorumOf(ctx.committee, d, blocks, round)
  {
    hide SeenAt;
    hide AuthorsAt;
    hide ValidDag;
    hide HasGenesis;
    GenesisIsQuorum(ctx, d);
    NotEmpty(ctx, d);
    var highest := HighestRound(d);
    blocks := BlocksAtRound(d, highest);
    round := highest;
    SeenIsAuthors(d, blocks, round);
    NobodyIsAbove(ctx.committee, d, highest);
    if highest == GENESIS_ROUND { return; }
    ListedAuthors(ctx, d, blocks);
    var reached := FormQuorum(ctx.committee, blocks, highest);
    if reached { return; }
    var r :| r in d && r.round == highest;
    ParentsAreQuorum(ctx, d, r);
    round := highest - 1;
    blocks := BlocksAtRound(d, round);
    SeenIsAuthors(d, blocks, round);
    if round == GENESIS_ROUND { return; }
    ListedAuthors(ctx, d, blocks);
    reached := FormQuorum(ctx.committee, blocks, round);
    assert reached;
  }

  lemma NobodyIsAbove(c: Committee, d: Dag, round: nat)
    requires forall r :: r in d ==> r.round <= round
    ensures !c.IsQuorum(AuthorsAt(d, round + 1))
  {
    assert AuthorsAt(d, round + 1) == {};
    NoEmptyQuorum(c);
  }

  lemma NotEmpty(ctx: Context, d: Dag)
    requires ValidDag(ctx, d) && HasGenesis(ctx, d)
    ensures d != map[] && d.Keys != {}
  {
    assert HasGenesisOf(ctx, 0);
    var g :| g in ctx.genesis && g.author == 0;
    assert g in d;
  }

  lemma DistinctAncestors(ctx: Context, own: nat, d: Dag, r: BlockRef)
    requires Sound(ctx, own, d) && r in d
    ensures forall i, j :: 0 <= i < j < |d[r].ancestors| ==> d[r].ancestors[i].author != d[r].ancestors[j].author
  {
    assert ValidEntry(ctx, d, r);
  }

  method RecoverIncluded(d: Dag, last: BlockRef) returns (included: map<nat, BlockRef>)
    requires Causal(d) && last in d
    requires forall i, j :: 0 <= i < j < |d[last].ancestors| ==> d[last].ancestors[i].author != d[last].ancestors[j].author
    ensures Watermarks(included, last)
    ensures forall i :: 0 <= i < |d[last].ancestors| ==>
              d[last].ancestors[i].author in included && included[d[last].ancestors[i].author] == d[last].ancestors[i]
    ensures forall a :: a in included ==> included[a] in d[last].ancestors
  {
    assert CausalEntry(d, last);
    included := map[];
    for i := 0 to |d[last].ancestors|
      invariant Watermarks(included, last)
      invariant forall j :: 0 <= j < i ==>
                  d[last].ancestors[j].author in included && included[d[last].ancestors[j].author] == d[last].ancestors[j]
      invariant forall a :: a in included ==> included[a] in d[last].ancestors
    {
      included := included[d[last].ancestors[i].author := d[last].ancestors[i]];
    }
  }

  // ---------------------------------------------------------------- the proposing authority

  datatype Proposal = Nothing | Made(ref: BlockRef, block: Block) | ClockBehind

  /** What a crash leaves: the store, and what others may have received. */
  ghost predicate Durable(ctx: Context, own: nat, stored: Dag, sent: set<BlockRef>) {
    Sound(ctx, own, stored) && forall r :: r in sent ==> r in stored && r.author == own
  }

  /** Completing a block of the author, with its transactions and the signature over all of it,
      makes it pass those checks. */
  ghost predicate Signs(ctx: Context, own: nat, seal: Block -> nat) {
    forall b: Block :: b.author == own ==> ctx.signatureOk(Sealed(b, seal)) && ctx.transactionsOk(Sealed(b, seal))
  }

  function Sealed(b: Block, seal: Block -> nat): Block { b.(payload := seal(b)) }

  predicate ContainsBlockAt(d: Dag, slot: Slot) {
    slot.round == GENESIS_ROUND || exists r :: r in d && r.AsSlot() == slot
  }

  predicate LeadersExist(d: Dag, leaders: seq<nat>, round: nat) {
    forall a :: a in leaders ==> ContainsBlockAt(d, Slot(round, a))
  }

  /** The block made for a round: new, valid for everybody, on the chosen ancestors, which the block
      before it did not have, and not older than any of them. */
  ghost predicate Proper(ctx: Context, own: nat, d: Dag, last: BlockRef, included: map<nat, BlockRef>, round: nat, now: nat, ref: BlockRef, b: Block) {
    && ref !in d && ref.author == own && ref.round == b.round == round > last.round
    && ValidBlock(ctx, b) && b.author == own && b.timestampMs == now
    && Chosen(d, ctx.committee.Size(), own, last, included, round, b.ancestors)
    && (forall i :: 0 <= i < |b.ancestors| ==> b.ancestors[i] in d && d[b.ancestors[i]].timestampMs <= now)
    && last in d && forall i :: 0 < i < |b.ancestors| ==> b.ancestors[i] !in d[last].ancestors
  }

  /** Time passed; a clock that went backwards counts as none. */
  function Elapsed(since: nat, now: nat): nat { if now < since then 0 else now - since }

  lemma SomeBlockAt(d: Dag, round: nat, a: nat)
    ensures ContainsBlockAt(d, Slot(round, a)) <==> round == 0 || exists r :: r in d && r.author == a && r.round == round
  {
    if r :| r in d && r.author == a && r.round == round {
      assert r.AsSlot() == Slot(round, a);
    }
  }

  /** The two conditions of a proposal that is not forced. */
  lemma MayPropose(d: Dag, leaders: seq<nat>, round: nat, since: nat, now: nat, delay: nat)
    ensures LeadersExist(d, leaders, round) <==>
              (round > 0 ==> forall a :: a in leaders ==> exists r :: r in d && r.author == a && r.round == round)
    ensures Elapsed(since, now) >= delay <==> (delay > 0 ==> now >= since + delay)
  {
    hide ContainsBlockAt;
    forall a | a in leaders
      ensures ContainsBlockAt(d, Slot(round, a)) <==> round == 0 || exists r :: r in d && r.author == a && r.round == round
    {
      SomeBlockAt(d, round, a);
    }
  }

  class Core {
    const ctx: Context
    const own: nat
    const digestOf: Block -> nat
    const minRoundDelay: nat
    var dag: Dag
    var stored: Dag
    var sent: set<BlockRef>
    var lastProposed: BlockRef
    var included: map<nat, BlockRef>
    var clock: ThresholdClock

    ghost predicate Valid()
      reads this, clock, clock.aggregator
    {
      && Durable(ctx, own, stored, sent)
      && Sound(ctx, own, dag) && Within(stored, dag)
      && Newest(dag, own, lastProposed) && Watermarks(included, lastProposed) && Covers(included, dag[lastProposed].ancestors)
      && clock.Valid() && clock.committee == ctx.committee && Backed(ctx.committee, dag, clock.Value())
    }

    /** Starts from what an earlier run has left behind; at first that is genesis alone. */
    constructor (ctx: Context, own: nat, digestOf: Block -> nat, minRoundDelay: nat, stored: Dag, sent: set<BlockRef>)
      requires Durable(ctx, own, stored, sent)
      ensures Valid() && fresh(clock) && fresh(clock.aggregator)
      ensures this.ctx == ctx && this.own == own && this.digestOf == digestOf && this.minRoundDelay == minRoundDelay
      ensures this.dag == this.stored == stored && this.sent == sent
      ensures clock.round > 0
    {
      hide ValidDag;
      NotEmptyOf(ctx, own, stored);
      var highest := HighestRound(stored);
      OwnGenesis(ctx, own, stored);
      var last := FindLastBelow(stored, own, highest + 1);
      DistinctAncestors(ctx, own, stored, last);
      var recovered := RecoverIncluded(stored, last);
      var quorum, round := LastQuorum(ctx, stored);
      this.ctx, this.own, this.digestOf, this.minRoundDelay := ctx, own, digestOf, minRoundDelay;
      dag, this.stored, this.sent := stored, stored, sent;
      lastProposed, included := last, recovered;
      clock := new ThresholdClock(ctx.committee, 0);
      new;
      forall i | 0 <= i < |quorum| ensures quorum[i] in stored && ctx.committee.IsValidIndex(quorum[i].author) {
        KnownAuthor(ctx, stored, quorum[i]);
      }
      var _ := clock.AddBlocks(quorum);
      RecoveredRound(ctx.committee, quorum, round);
      ClockIsBacked(ctx, stored, START, quorum);
    }

    /** Takes over what the block manager has accepted. Nobody else makes blocks in this
        authority's name, so those of its own that arrive were sent before. */
    method AddAcceptedBlocks(accepted: seq<BlockRef>, dag': Dag)
      requires Valid() && Within(dag, dag') && ValidDag(ctx, dag')
      requires forall i :: 0 <= i < |accepted| ==> accepted[i] in dag'
      requires forall r :: r in dag' && r.author == own ==> r in dag || r in sent
      modifies this`dag, clock, clock.aggregator
      ensures Valid() && dag == dag' && clock.Value() == TickAll(ctx.committee, old(clock.Value()), accepted)
    {
      hide ValidDag;
      assert forall r :: r in sent ==> r in dag;
      forall i | 0 <= i < |accepted| ensures ctx.committee.IsValidIndex(accepted[i].author) {
        KnownAuthor(ctx, dag', accepted[i]);
      }
      BackedGrows(ctx.committee, dag, dag', clock.Value());
      ClockIsBacked(ctx, dag', clock.Value(), accepted);
      OwnChainSame(own, dag, dag');
      dag := dag';
      var _ := clock.AddBlocks(accepted);
    }

    method Flush()
      requires Valid()
      modifies this`stored
      ensures Valid() && stored == dag
    {
      stored := dag;
    }

    /** Chooses the ancestors of the next block and remembers them as included. */
    method AncestorsToPropose(round: nat) returns (ancestors: seq<BlockRef>)
      requires Valid() && round == clock.round > lastProposed.round
      modifies this`included
      ensures Chosen(dag, ctx.committee.Size(), own, lastProposed, old(included), round, ancestors)
      ensures NewestOfOthers(dag, own, lastProposed, old(included), round, ancestors)
      ensures lastProposed in dag && forall i :: 0 < i < |ancestors| ==> ancestors[i] !in dag[lastProposed].ancestors
      ensures forall i :: 0 <= i < |ancestors| ==> ancestors[i].author in included && included[ancestors[i].author] == ancestors[i]
      ensures forall a :: a in included ==> (a in old(included) && included[a] == old(included)[a]) || included[a] in ancestors
      ensures forall a :: a in included ==> included[a].author == a && included[a].round < round
    {
      hide Chosen;
      hide NewestOfOthers;
      hide LastBelow;
      hide Within;
      hide Sound;
      hide Newest;
      hide Watermarks;
      hide Covers;
      hide Backed;
      hide Durable;
      hide SeenAt;
      hide AuthorsAt;
      InForce();
      ancestors := ChooseAncestors(ctx, dag, own, lastProposed, included, round);
      ChosenShape(dag, ctx.committee.Size(), own, lastProposed, included, round, ancestors);
      ChosenMeans(dag, ctx.committee.Size(), own, lastProposed, included, round, ancestors);
      OlderIncluded(included, lastProposed, round);
      Remember(ancestors, round);
      assert ctx.committee.IsQuorum(SeenAt(ancestors, round - 1)) by {
        ChosenParents(ctx.committee, dag, own, lastProposed, old(included), round, ancestors);
      }
      var reached := FormQuorum(ctx.committee, ancestors, round - 1);
      assert reached;
    }

    lemma InForce()
      requires Valid()
      ensures Sound(ctx, own, dag) && Newest(dag, own, lastProposed) && Watermarks(included, lastProposed)
      ensures lastProposed in dag && Covers(included, dag[lastProposed].ancestors)
      ensures lastProposed.author == own && ctx.committee.IsValidIndex(own)
      ensures forall r :: r in dag ==> ctx.committee.IsValidIndex(r.author)
      ensures clock.round > 0 ==> ctx.committee.IsQuorum(AuthorsAt(dag, clock.round - 1))
    {
      forall r | r in dag ensures ctx.committee.IsValidIndex(r.author) { KnownAuthor(ctx, dag, r); }
    }

    method Remember(ancestors: seq<BlockRef>, round: nat)
      requires forall i :: 0 <= i < |ancestors| ==> ancestors[i].round < round
      requires forall i, j :: 0 <= i < j < |ancestors| ==> ancestors[i].author != ancestors[j].author
      requires forall a :: a in included ==> included[a].author == a && included[a].round < round
      modifies this`included
      ensures forall i :: 0 <= i < |ancestors| ==> ancestors[i].author in included && included[ancestors[i].author] == ancestors[i]
      ensures forall a :: a in included ==> (a in old(included) && included[a] == old(included)[a]) || included[a] in ancestors
      ensures forall a :: a in included ==> included[a].author == a && included[a].round < round
    {
      for i := 0 to |ancestors|
        invariant forall j :: 0 <= j < i ==> ancestors[j].author in included && included[ancestors[j].author] == ancestors[j]
        invariant forall a :: a in included ==> (a in old(included) && included[a] == old(included)[a]) || included[a] in ancestors
        invariant forall a :: a in included ==> included[a].author == a && included[a].round < round
      {
        included := included[ancestors[i].author := ancestors[i]];
      }
    }

    /** Makes the block of the clock's round on top of the chosen ancestors: accepted first, then
        persisted, and only then the last proposed block. */
    method Propose(now: nat, commitVotes: seq<CommitRef>, seal: Block -> nat) returns (p: Proposal)
      requires Valid() && clock.round > lastProposed.round && Signs(ctx, own, seal)
      modifies this`dag, this`stored, this`included, this`lastProposed, clock, clock.aggregator
      ensures !p.Nothing?
      ensures p.ClockBehind? ==> dag == old(dag) && stored == old(stored) && exists r :: r in dag && dag[r].timestampMs > now
      ensures p.Made? ==>
                && Valid() && lastProposed == p.ref && stored == dag == old(dag)[p.ref := p.block]
                && Proper(ctx, own, old(dag), old(lastProposed), old(included), old(clock.round), now, p.ref, p.block)
    {
      hide Chosen;
      hide Sound;
      hide Newest;
      hide Watermarks;
      hide Covers;
      hide Backed;
      hide Within;
      hide Durable;
      hide Proper;
      hide NewestOfOthers;
      hide Signs;
      var round := clock.round;
      InForce();
      ghost var before := included;
      var ancestors := AncestorsToPropose(round);
      ChosenAreKnown(ctx, dag, own, lastProposed, before, round, ancestors);
      for i := 0 to |ancestors|
        invariant forall j :: 0 <= j < i ==> dag[ancestors[j]].timestampMs <= now
      {
        if dag[ancestors[i]].timestampMs > now { return ClockBehind; }
      }
      var unsigned := Block(ctx.committee.epoch, round, own, now, ancestors, commitVotes, 0);
      var block := Sealed(unsigned, seal);
      var ref := BlockRef(round, own, digestOf(block));
      SealedPasses(ctx, own, unsigned, seal);
      ProposalIsProper(ctx, own, dag, lastProposed, before, ref, block);
      ProposalKeeps(ctx, own, stored, sent, dag, lastProposed, before, round, now, ref, block, clock.Value());
      NewWatermarks(included, ref);
      NewCovers(included, ancestors);
      dag := dag[ref := block];
      clock.AddBlock(ref);
      stored := dag;
      lastProposed := ref;
      return Made(ref, block);
    }

    method TryNewBlock(force: bool, leaders: seq<nat>, now: nat, commitVotes: seq<CommitRef>, seal: Block -> nat) returns (p: Proposal)
      requires Valid() && Signs(ctx, own, seal)
      modifies this`dag, this`stored, this`included, this`lastProposed, clock, clock.aggregator
      ensures p.Nothing? <==>
                || old(clock.round) <= old(lastProposed).round
                || (!force && !(LeadersExist(old(dag), leaders, old(clock.round) - 1)
                                && Elapsed(old(dag)[old(lastProposed)].timestampMs, now) >= minRoundDelay))
      ensures !p.Nothing? && !force ==>
                && (old(clock.round) > 1 ==> forall a :: a in leaders ==>
                      exists r :: r in old(dag) && r.author == a && r.round == old(clock.round) - 1)
                && (minRoundDelay > 0 ==> now >= old(dag)[old(lastProposed)].timestampMs + minRoundDelay)
      ensures p.Nothing? && old(clock.round) > old(lastProposed).round ==>
                || (old(clock.round) > 1 && exists a :: a in leaders && forall r :: r in old(dag) && r.author == a ==> r.round != old(clock.round) - 1)
                || (minRoundDelay > 0 && now < old(dag)[old(lastProposed)].timestampMs + minRoundDelay)
      ensures p.Nothing? ==> unchanged(this) && unchanged(clock) && unchanged(clock.aggregator)
      ensures p.ClockBehind? ==> dag == old(dag) && stored == old(stored) && exists r :: r in dag && dag[r].timestampMs > now
      ensures p.Made? ==>
                && Valid() && lastProposed == p.ref && stored == dag == old(dag)[p.ref := p.block]
                && Proper(ctx, own, old(dag), old(lastProposed), old(included), old(clock.round), now, p.ref, p.block)
    {
      hide *;
      InForce();
      if clock.round <= lastProposed.round { return Nothing; }
      MayPropose(dag, leaders, clock.round - 1, dag[lastProposed].timestampMs, now, minRoundDelay);
      if !force {
        if !LeadersExist(dag, leaders, clock.round - 1) { return Nothing; }
        if Elapsed(dag[lastProposed].timestampMs, now) < minRoundDelay { return Nothing; }
      }
      p := Propose(now, commitVotes, seal);
    }

    /** Sends the new block, which has been persisted before. */
    method TryPropose(force: bool, leaders: seq<nat>, now: nat, commitVotes: seq<CommitRef>, seal: Block -> nat) returns (p: Proposal)
      requires Valid() && Signs(ctx, own, seal)
      modifies this`dag, this`stored, this`sent, this`included, this`lastProposed, clock, clock.aggregator
      ensures Durable(ctx, own, stored, sent) && (!p.ClockBehind? ==> Valid())
      ensures sent == old(sent) + if p.Made? then {p.ref} else {}
      ensures p.Nothing? ==> unchanged(this) && unchanged(clock) && unchanged(clock.aggregator)
      ensures p.Nothing? && force ==> clock.round <= lastProposed.round
      ensures p.Made? ==> Proper(ctx, own, old(dag), old(lastProposed), old(included), old(clock.round), now, p.ref, p.block) && lastProposed == p.ref
    {
      hide Sound;
      hide Newest;
      hide Watermarks;
      hide Backed;
      hide Within;
      hide Proper;
      hide LeadersExist;
      p := TryNewBlock(force, leaders, now, commitVotes, seal);
      if p.Made? {
        assert Newest(dag, own, p.ref);
        NewestIsOwn(dag, own, p.ref);
        sent := sent + {p.ref};
      }
    }

    /** What a leader timeout asks for: nothing when the round has been proposed for already. */
    method NewBlock(round: nat, force: bool, leaders: seq<nat>, now: nat, commitVotes: seq<CommitRef>, seal: Block -> nat) returns (p: Proposal)
      requires Valid() && Signs(ctx, own, seal)
      modifies this`dag, this`stored, this`sent, this`included, this`lastProposed, clock, clock.aggregator
      ensures Durable(ctx, own, stored, sent) && (!p.ClockBehind? ==> Valid())
      ensures old(lastProposed).round >= round ==> p.Nothing?
      ensures sent == old(sent) + if p.Made? then {p.ref} else {}
      ensures p.Made? ==> Proper(ctx, own, old(dag), old(lastProposed), old(included), old(clock.round), now, p.ref, p.block)
    {
      p := Nothing;
      if lastProposed.round < round { p := TryPropose(force, leaders, now, commitVotes, seal); }
    }

    /** After a restart: a new block if the clock allows one, otherwise the last one again, which is
        never a genesis block. */
    method Recover(leaders: seq<nat>, now: nat, commitVotes: seq<CommitRef>, seal: Block -> nat) returns (p: Proposal)
      requires Valid() && dag == stored && clock.round > 0 && Signs(ctx, own, seal)
      modifies this`dag, this`stored, this`sent, this`included, this`lastProposed, clock, clock.aggregator
      ensures Durable(ctx, own, stored, sent) && (!p.ClockBehind? ==> Valid())
      ensures !p.ClockBehind? ==> sent == old(sent) + {lastProposed} && lastProposed.round > GENESIS_ROUND
      ensures p.Nothing? ==> lastProposed == old(lastProposed)
    {
      p := TryPropose(true, leaders, now, commitVotes, seal);
      if p.Nothing? {
        assert lastProposed.round > GENESIS_ROUND;
        NewestIsOwn(dag, own, lastProposed);
        sent := sent + {lastProposed};
      }
    }
  }

  lemma ChosenAreKnown(ctx: Context, d: Dag, own: nat, last: BlockRef, included: map<nat, BlockRef>, end: nat, ancestors: seq<BlockRef>)
    requires Chosen(d, ctx.committee.Size(), own, last, included, end, ancestors) && last in d
    ensures forall i :: 0 <= i < |ancestors| ==> ancestors[i] in d
  {
    forall i | 0 < i < |ancestors| ensures ancestors[i] in d { assert Pick(d, own, included, end, ancestors[i]); }
  }

  lemma ProposalIsProper(ctx: Context, own: nat, d: Dag, last: BlockRef, included: map<nat, BlockRef>, ref: BlockRef, b: Block)
    requires Sound(ctx, own, d) && Newest(d, own, last) && Watermarks(included, last) && last.round < b.round
    requires Chosen(d, ctx.committee.Size(), own, last, included, b.round, b.ancestors)
    requires b.author == ref.author == own && b.round == ref.round && b.epoch == ctx.committee.epoch && ctx.signatureOk(b) && ctx.transactionsOk(b)
    requires ctx.committee.IsQuorum(AuthorsAt(d, b.round - 1))
    requires forall i :: 0 <= i < |b.ancestors| ==> b.ancestors[i] in d && d[b.ancestors[i]].timestampMs <= b.timestampMs
    requires forall i :: 0 < i < |b.ancestors| ==> b.ancestors[i] !in d[last].ancestors
    ensures Proper(ctx, own, d, last, included, b.round, b.timestampMs, ref, b)
  {
    hide ValidAncestors;
    hide Chosen;
    ChosenIsValid(ctx, d, own, last, included, b.round, b);
  }

  lemma SealedPasses(ctx: Context, own: nat, b: Block, seal: Block -> nat)
    requires Signs(ctx, own, seal) && b.author == own
    ensures ctx.signatureOk(Sealed(b, seal)) && ctx.transactionsOk(Sealed(b, seal))
  {
  }

  lemma ProposalKeeps(ctx: Context, own: nat, stored: Dag, sent: set<BlockRef>, d: Dag, last: BlockRef, included: map<nat, BlockRef>,
                      round: nat, now: nat, ref: BlockRef, b: Block, k: Clock)
    requires Durable(ctx, own, stored, sent) && Within(stored, d) && Sound(ctx, own, d) && Newest(d, own, last)
    requires Proper(ctx, own, d, last, included, round, now, ref, b) && Backed(ctx.committee, d, k)
    ensures var d' := d[ref := b];
            && Durable(ctx, own, d', sent) && Within(d', d') && Sound(ctx, own, d') && Newest(d', own, ref)
            && Backed(ctx.committee, d', Tick(ctx.committee, k, ref))
  {
    hide Sound;
    hide ValidBlock;
    hide Backed;
    hide Newest;
    hide Tick;
    var d' := d[ref := b];
    ChosenFirst(d, ctx.committee.Size(), own, last, included, round, b.ancestors);
    AcceptOwn(ctx, own, d, last, ref, b);
    SoundIsValid(ctx, own, d');
    BackedGrows(ctx.committee, d, d', k);
    TickBacked(ctx, d', k, ref);
  }

  lemma SoundIsValid(ctx: Context, own: nat, d: Dag)
    requires Sound(ctx, own, d)
    ensures ValidDag(ctx, d)
  {
  }

  lemma NewWatermarks(included: map<nat, BlockRef>, ref: BlockRef)
    requires forall a :: a in included ==> included[a].author == a && included[a].round < ref.round
    ensures Watermarks(included, ref)
  {
  }

  lemma NewCovers(included: map<nat, BlockRef>, ancestors: seq<BlockRef>)
    requires forall i :: 0 <= i < |ancestors| ==> ancestors[i].author in included && included[ancestors[i].author] == ancestors[i]
    ensures Covers(included, ancestors)
  {
  }

  lemma NewestIsOwn(d: Dag, own: nat, r: BlockRef)
    requires Newest(d, own, r)
    ensures r in d && r.author == own
  {
  }

  // ---------------------------------------------------------------- every run

  /** The store of an authority that starts for the first time. */
  lemma GenesisIsDurable(ctx: Context, own: nat, d: Dag)
    requires ctx.WellFormed() && ctx.committee.IsValidIndex(own) && d.Keys == ctx.genesis
    requires forall r :: r in d ==> d[r].round == r.round && d[r].author == r.author && d[r].ancestors == []
    requires forall a :: 0 <= a < ctx.committee.Size() ==> HasGenesisOf(ctx, a)
    ensures Durable(ctx, own, d, {})
  {
    assert forall r :: r in d ==> r in ctx.genesis;
  }

  /** Whatever happened, crashes included: of all blocks an authority has ever sent, two of the
      same round are the same, and a later one links first to one not before the earlier. */
  lemma SentOnceARound(ctx: Context, own: nat, stored: Dag, sent: set<BlockRef>, r: BlockRef, s: BlockRef)
    requires Durable(ctx, own, stored, sent) && r in sent && s in sent && r.round <= s.round
    ensures r.round == s.round ==> r == s
    ensures OwnReaches(stored, s, r)
    decreases s.round
  {
    ChainReaches(ctx, stored, r, s);
    assert FollowsOwn(stored, r, s);
  }

  ghost predicate FromStore(u: Dag, own: nat, stored: Dag) {
    forall r :: r in u && r.author == own ==> r in stored && stored[r] == u[r]
  }

  /** So the blocks of authorities that run this code meet what agreement rests on. */
  lemma ProposersAreCorrect(ctx: Context, u: Dag, byzantine: set<nat>, stores: nat -> Dag)
    requires ValidDag(ctx, u) && !ctx.committee.ReachedValidity(ctx.committee.StakeOf(byzantine))
    requires forall a :: 0 <= a < ctx.committee.Size() && a !in byzantine ==> Sound(ctx, a, stores(a)) && FromStore(u, a, stores(a))
    ensures BftUniverse(ctx, u, byzantine)
  {
    forall r, s | r in u && s in u && r.author == s.author && r.author !in byzantine && r.round <= s.round ensures FollowsOwn(u, r, s) {
      KnownAuthor(ctx, u, r);
      assert FollowsOwn(stores(r.author), r, s);
    }
  }

  method ChooseAncestors(ctx: Context, d: Dag, own: nat, last: BlockRef, included: map<nat, BlockRef>, round: nat) returns (ancestors: seq<BlockRef>)
    requires Sound(ctx, own, d) && round > 0
    ensures Chosen(d, ctx.committee.Size(), own, last, included, round, ancestors)
  {
    hide Chosen;
    hide Sound;
    hide LastBelow;
    ancestors := [last];
    NoneChosen(ctx, d, own, last, included, round);
    for a := 0 to ctx.committee.Size()
      invariant Chosen(d, a, own, last, included, round, ancestors)
    {
      if a == own {
        ChosenOwn(d, a, last, included, round, ancestors);
      } else {
        SomeBelow(ctx, own, d, a, round);
        var r := FindLastBelow(d, a, round);
        ChosenNext(d, a, own, last, included, round, ancestors, r);
        if Fresh(included, r) { ancestors := ancestors + [r]; }
      }
    }
  }

  lemma NoneChosen(ctx: Context, d: Dag, own: nat, last: BlockRef, included: map<nat, BlockRef>, round: nat)
    ensures Chosen(d, 0, own, last, included, round, [last])
  {
  }

  lemma ChosenShape(d: Dag, n: nat, own: nat, last: BlockRef, included: map<nat, BlockRef>, end: nat, ancestors: seq<BlockRef>)
    requires Chosen(d, n, own, last, included, end, ancestors) && last.author == own < n && last.round < end
    ensures forall i :: 0 <= i < |ancestors| ==> ancestors[i].round < end && ancestors[i].author < n
    ensures forall i, j :: 0 <= i < j < |ancestors| ==> ancestors[i].author != ancestors[j].author
  {
    forall i | 0 < i < |ancestors| ensures ancestors[i].round < end && ancestors[i].author != own {
      assert Pick(d, own, included, end, ancestors[i]);
    }
  }

  lemma ChosenMeans(d: Dag, n: nat, own: nat, last: BlockRef, included: map<nat, BlockRef>, end: nat, ancestors: seq<BlockRef>)
    requires Chosen(d, n, own, last, included, end, ancestors) && last in d && Covers(included, d[last].ancestors)
    requires forall r :: r in d ==> r.author < n
    ensures NewestOfOthers(d, own, last, included, end, ancestors)
    ensures forall i :: 0 < i < |ancestors| ==> ancestors[i] !in d[last].ancestors
  {
    forall i | 0 < i < |ancestors|
      ensures ancestors[i] in d && ancestors[i].author != own && ancestors[i] !in d[last].ancestors
      ensures forall s :: s in d && s.author == ancestors[i].author && s.round < end ==> !Later(s, ancestors[i])
    {
      assert Pick(d, own, included, end, ancestors[i]);
    }
    forall s | s in d && s.author != own && s.round < end && (s.author in included ==> included[s.author].round < s.round)
      ensures Represented(ancestors, s)
    {
      assert Fresh(included, s);
    }
  }

  lemma OlderIncluded(included: map<nat, BlockRef>, last: BlockRef, round: nat)
    requires Watermarks(included, last) && last.round < round
    ensures forall a :: a in included ==> included[a].author == a && included[a].round < round
  {
  }

  lemma ChosenParents(c: Committee, d: Dag, own: nat, last: BlockRef, included: map<nat, BlockRef>, end: nat, ancestors: seq<BlockRef>)
    requires Chosen(d, c.Size(), own, last, included, end, ancestors)
    requires Newest(d, own, last) && Watermarks(included, last) && last.round < end
    requires forall r :: r in d ==> c.IsValidIndex(r.author)
    requires c.IsQuorum(AuthorsAt(d, end - 1))
    ensures c.IsQuorum(SeenAt(ancestors, end - 1))
  {
    var below := AuthorsAt(d, end - 1);
    forall a | a in below ensures a in SeenAt(ancestors, end - 1) {
      var s :| s in d && s.round == end - 1 && s.author == a;
      if a == own {
        assert ancestors[0].round == end - 1;
      } else {
        assert Represented(ancestors, s);
        var i :| 0 < i < |ancestors| && ancestors[i].author == a && ancestors[i].round >= s.round;
        assert Pick(d, own, included, end, ancestors[i]);
      }
    }
    StakeMonotone(c, AuthorsAt(d, end - 1), SeenAt(ancestors, end - 1));
  }

  lemma SomeBelow(ctx: Context, own: nat, d: Dag, a: nat, round: nat)
    requires Sound(ctx, own, d) && ctx.committee.IsValidIndex(a) && round > 0
    ensures exists r :: r in d && r.author == a && r.round < round
  {
    assert HasGenesisOf(ctx, a);
    var g :| g in ctx.genesis && g.author == a;
    assert g in d;
  }

  lemma ChosenFirst(d: Dag, n: nat, own: nat, last: BlockRef, included: map<nat, BlockRef>, end: nat, ancestors: seq<BlockRef>)
    requires Chosen(d, n, own, last, included, end, ancestors)
    ensures |ancestors| > 0 && ancestors[0] == last
  {
  }

  lemma NotEmptyOf(ctx: Context, own: nat, d: Dag)
    requires Sound(ctx, own, d)
    ensures d != map[] && Causal(d)
  {
    NotEmpty(ctx, d);
  }

  lemma OwnGenesis(ctx: Context, own: nat, d: Dag)
    requires Sound(ctx, own, d)
    ensures exists r :: r in d && r.author == own && r.round < 1
  {
    assert HasGenesisOf(ctx, own);
    var g :| g in ctx.genesis && g.author == own;
    assert g in d;
  }
}
