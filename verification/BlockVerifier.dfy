/** Structural verification of a received block, and the check of a block against the
    blocks it references. */
module BlockVerifier {
  import opened Committees
  import opened Blocks

  /** What a verifier is built from. Signature and transaction checks are fixed predicates. */
  datatype Context = Context(committee: Committee, genesis: set<BlockRef>,
                             signatureOk: Block -> bool, transactionsOk: Block -> bool)
  {
    ghost predicate WellFormed() {
      && committee.WellFormed()
      && (forall g :: g in genesis ==> g.round == GENESIS_ROUND && committee.IsValidIndex(g.author))
      && (forall g, h :: g in genesis && h in genesis && g.author == h.author ==> g == h)
    }
  }

  datatype VerifyError =
    | WrongEpoch(expected: nat, actual: nat)
    | UnexpectedGenesisBlock
    | InvalidAuthorityIndex(index: nat, max: nat)
    | InvalidSignature
    | TooManyAncestors(count: nat, limit: nat)
    | InsufficientParentStakes(parentStakes: nat, quorum: nat)
    | InvalidAncestorPosition(blockAuthority: nat, ancestorAuthority: nat, position: nat)
    | InvalidAncestorRound(ancestor: nat, block: nat)
    | InvalidGenesisAncestor(ref: BlockRef)
    | DuplicatedAncestorsAuthority(authority: nat)
    | InvalidTransaction
    | InvalidBlockTimestamp(maxTimestampMs: nat, blockTimestampMs: nat)

  datatype Verdict = Verified | Rejected(error: VerifyError)

  /** The ancestor list of an acceptable block: own previous block first and only there, one
      ancestor per authority, all from lower rounds, genuine genesis blocks, and a quorum of
      parents from the round just below. */
  ghost predicate ValidAncestors(ctx: Context, b: Block) {
    && 0 < |b.ancestors| <= ctx.committee.Size()
    && (forall i :: 0 <= i < |b.ancestors| ==>
          && ctx.committee.IsValidIndex(b.ancestors[i].author)
          && (i == 0 <==> b.ancestors[i].author == b.author)
          && b.ancestors[i].round < b.round
          && (b.ancestors[i].round == GENESIS_ROUND ==> b.ancestors[i] in ctx.genesis))
    && (forall i, j :: 0 <= i < j < |b.ancestors| ==> b.ancestors[i].author != b.ancestors[j].author)
    && ctx.committee.IsQuorum(b.ParentAuthors())
  }

  ghost predicate ValidBlock(ctx: Context, b: Block) {
    && b.epoch == ctx.committee.epoch
    && b.round > GENESIS_ROUND
    && ctx.committee.IsValidIndex(b.author)
    && ctx.signatureOk(b)
    && ValidAncestors(ctx, b)
    && ctx.transactionsOk(b)
  }

  /** The first check that ancestor i fails, if any. */
  ghost function AncestorFault(ctx: Context, b: Block, i: nat): Option<VerifyError>
    requires i < |b.ancestors|
  {
    var a := b.ancestors[i];
    if !ctx.committee.IsValidIndex(a.author) then
      Some(InvalidAuthorityIndex(a.author, if ctx.committee.Size() == 0 then 0 else ctx.committee.Size() - 1))
    else if (i == 0) != (a.author == b.author) then
      Some(InvalidAncestorPosition(b.author, a.author, i))
    else if a.round >= b.round then
      Some(InvalidAncestorRound(a.round, b.round))
    else if a.round == GENESIS_ROUND && a !in ctx.genesis then
      Some(InvalidGenesisAncestor(a))
    else if exists j :: 0 <= j < i && b.ancestors[j].author == a.author then
      Some(DuplicatedAncestorsAuthority(a.author))
    else
      None
  }

  ghost predicate NoFaultBefore(ctx: Context, b: Block, n: nat)
    requires n <= |b.ancestors|
  {
    forall i :: 0 <= i < n ==> AncestorFault(ctx, b, i).None?
  }

  /** `e` is what is wrong with the leftmost faulty ancestor. */
  ghost predicate FirstFault(ctx: Context, b: Block, e: VerifyError) {
    exists i :: 0 <= i < |b.ancestors| && AncestorFault(ctx, b, i) == Some(e) && NoFaultBefore(ctx, b, i)
  }

  /** Everything that is checked before the ancestors are looked at one by one. */
  ghost predicate HeaderOk(ctx: Context, b: Block) {
    && b.epoch == ctx.committee.epoch
    && b.round > GENESIS_ROUND
    && ctx.committee.IsValidIndex(b.author)
    && ctx.signatureOk(b)
    && |b.ancestors| <= ctx.committee.Size()
  }

  /** The error for a bad header says what is wrong, and that everything checked before is right. */
  ghost predicate HeaderError(ctx: Context, b: Block, e: VerifyError) {
    var c := ctx.committee;
    match e
    case WrongEpoch(expected, actual) => expected == c.epoch && actual == b.epoch && actual != expected
    case UnexpectedGenesisBlock => b.epoch == c.epoch && b.round == GENESIS_ROUND
    case InvalidAuthorityIndex(index, max) =>
      b.epoch == c.epoch && b.round > GENESIS_ROUND && index == b.author > max == c.Size() - 1
    case InvalidSignature =>
      b.epoch == c.epoch && b.round > GENESIS_ROUND && c.IsValidIndex(b.author) && !ctx.signatureOk(b)
    case TooManyAncestors(count, limit) =>
      && b.epoch == c.epoch && b.round > GENESIS_ROUND && c.IsValidIndex(b.author) && ctx.signatureOk(b)
      && count == |b.ancestors| > limit == c.Size()
    case _ => false
  }

  /** Why a block is rejected: the first check it fails. */
  ghost predicate Rejection(ctx: Context, b: Block, e: VerifyError) {
    if !HeaderOk(ctx, b) then HeaderError(ctx, b, e)
    else
      match e
      case InsufficientParentStakes(parentStakes, quorum) =>
        && NoFaultBefore(ctx, b, |b.ancestors|) && !ctx.committee.IsQuorum(b.ParentAuthors())
        && parentStakes == ctx.committee.StakeOf(b.ParentAuthors()) && quorum == ctx.committee.QuorumThreshold()
      case InvalidTransaction => ValidAncestors(ctx, b) && !ctx.transactionsOk(b)
      case _ => FirstFault(ctx, b, e)
  }

  lemma ParentStakeStep(c: Committee, b: Block, i: nat)
    requires i < |b.ancestors| && c.IsValidIndex(b.ancestors[i].author)
    requires forall j :: 0 <= j < i ==> b.ancestors[j].author != b.ancestors[i].author
    ensures c.StakeOf(b.ParentsAmong(i + 1))
         == c.StakeOf(b.ParentsAmong(i))
            + if b.ancestors[i].round + 1 == b.round then c.Stake(b.ancestors[i].author) else 0
  {
    var a := b.ancestors[i];
    if a.round + 1 == b.round {
      assert b.ParentsAmong(i + 1) == b.ParentsAmong(i) + {a.author};
      StakeAdd(c, b.ParentsAmong(i), a.author);
    } else {
      assert b.ParentsAmong(i + 1) == b.ParentsAmong(i);
    }
  }

  /** Verifies a block before its causal history is examined. */
  method Verify(ctx: Context, b: Block) returns (r: Verdict)
    requires ctx.committee.WellFormed()
    ensures r.Verified? <==> ValidBlock(ctx, b)
    ensures r.Rejected? ==> Rejection(ctx, b, r.error)
  {
    var committee := ctx.committee;
    if b.epoch != committee.epoch { return Rejected(WrongEpoch(committee.epoch, b.epoch)); }
    if b.round == 0 { return Rejected(UnexpectedGenesisBlock); }
    if !committee.IsValidIndex(b.author) {
      return Rejected(InvalidAuthorityIndex(b.author, committee.Size() - 1));
    }
    if !ctx.signatureOk(b) { return Rejected(InvalidSignature); }
    if |b.ancestors| > committee.Size() {
      return Rejected(TooManyAncestors(|b.ancestors|, committee.Size()));
    }
    StakeEmpty(committee);
    assert b.ParentsAmong(0) == {};
    if |b.ancestors| == 0 {
      return Rejected(InsufficientParentStakes(0, committee.QuorumThreshold()));
    }
    var seen := new bool[committee.Size()](_ => false);
    var parentStakes := 0;
    var i := 0;
    while i < |b.ancestors|
      invariant 0 <= i <= |b.ancestors|
      invariant NoFaultBefore(ctx, b, i)
      invariant forall a :: 0 <= a < seen.Length ==>
                  (seen[a] <==> exists j :: 0 <= j < i && b.ancestors[j].author == a)
      invariant parentStakes == committee.StakeOf(b.ParentsAmong(i))
    {
      var a := b.ancestors[i];
      ghost var fault := AncestorFault(ctx, b, i);
      assert fault.Some? ==> FirstFault(ctx, b, fault.value);
      if !committee.IsValidIndex(a.author) {
        return Rejected(InvalidAuthorityIndex(a.author, committee.Size() - 1));
      }
      if (i == 0 && a.author != b.author) || (i > 0 && a.author == b.author) {
        return Rejected(InvalidAncestorPosition(b.author, a.author, i));
      }
      if a.round >= b.round { return Rejected(InvalidAncestorRound(a.round, b.round)); }
      if a.round == GENESIS_ROUND && a !in ctx.genesis { return Rejected(InvalidGenesisAncestor(a)); }
      if seen[a.author] { return Rejected(DuplicatedAncestorsAuthority(a.author)); }
      ParentStakeStep(committee, b, i);
      seen[a.author] := true;
      if a.round == b.round - 1 { parentStakes := parentStakes + committee.Stake(a.author); }
      i := i + 1;
    }
    NoFaultIsValid(ctx, b);
    if !committee.ReachedQuorum(parentStakes) {
      return Rejected(InsufficientParentStakes(parentStakes, committee.QuorumThreshold()));
    }
    if !ctx.transactionsOk(b) { return Rejected(InvalidTransaction); }
    return Verified;
  }

  lemma {:induction false} DistinctFit(authors: seq<nat>, n: nat)
    requires forall i :: 0 <= i < |authors| ==> authors[i] < n
    requires forall i, j :: 0 <= i < j < |authors| ==> authors[i] != authors[j]
    ensures |authors| <= n
    decreases n
  {
    assert authors != [] ==> authors[0] < n;
    if i :| 0 <= i < |authors| && authors[i] == n - 1 {
      DistinctFit(authors[..i] + authors[i + 1..], n - 1);
    } else if n > 0 {
      DistinctFit(authors, n - 1);
    }
  }

  /** The rules written out. The limit on the number of ancestors adds nothing to them. */
  lemma ValidExactly(ctx: Context, b: Block)
    ensures ValidBlock(ctx, b) <==>
              && b.epoch == ctx.committee.epoch && b.round > 0 && ctx.signatureOk(b) && ctx.transactionsOk(b)
              && b.ancestors != [] && b.ancestors[0].author == b.author
              && (forall i :: 0 <= i < |b.ancestors| ==>
                    && b.ancestors[i].author < ctx.committee.Size() && b.ancestors[i].round < b.round
                    && (b.ancestors[i].round == 0 ==> b.ancestors[i] in ctx.genesis))
              && (forall i, j :: 0 <= i < j < |b.ancestors| ==> b.ancestors[i].author != b.ancestors[j].author)
              && ctx.committee.IsQuorum(set i | 0 <= i < |b.ancestors| && b.ancestors[i].round == b.round - 1 :: b.ancestors[i].author)
  {
    assert b.ParentAuthors() == set i | 0 <= i < |b.ancestors| && b.ancestors[i].round == b.round - 1 :: b.ancestors[i].author;
    var authors := seq(|b.ancestors|, i requires 0 <= i < |b.ancestors| => b.ancestors[i].author);
    if (forall i :: 0 <= i < |b.ancestors| ==> b.ancestors[i].author < ctx.committee.Size())
       && forall i, j :: 0 <= i < j < |b.ancestors| ==> b.ancestors[i].author != b.ancestors[j].author
    {
      DistinctFit(authors, ctx.committee.Size());
    }
  }

  /** Position-by-position acceptance amounts to the declarative rules on the whole list. */
  lemma NoFaultIsValid(ctx: Context, b: Block)
    requires 0 < |b.ancestors| <= ctx.committee.Size()
    ensures ValidAncestors(ctx, b) <==>
              NoFaultBefore(ctx, b, |b.ancestors|) && ctx.committee.IsQuorum(b.ParentAuthors())
  {
    if NoFaultBefore(ctx, b, |b.ancestors|) {
      forall i, j | 0 <= i < j < |b.ancestors|
        ensures b.ancestors[i].author != b.ancestors[j].author
      {
        assert AncestorFault(ctx, b, j).None?;
      }
      forall i | 0 <= i < |b.ancestors| ensures
        && ctx.committee.IsValidIndex(b.ancestors[i].author)
        && (i == 0 <==> b.ancestors[i].author == b.author)
        && b.ancestors[i].round < b.round
        && (b.ancestors[i].round == GENESIS_ROUND ==> b.ancestors[i] in ctx.genesis)
      {
        assert AncestorFault(ctx, b, i).None?;
      }
    }
  }

  /** Timestamps never run backwards along an edge of the DAG. `ancestors` are the referenced
      blocks, in order. */
  method CheckAncestors(b: Block, ancestors: seq<Block>) returns (r: Verdict)
    requires |ancestors| == |b.ancestors|
    ensures r.Verified? <==> forall i :: 0 <= i < |ancestors| ==> ancestors[i].timestampMs <= b.timestampMs
    ensures r.Rejected? ==>
            && r.error.InvalidBlockTimestamp?
            && (exists i :: 0 <= i < |ancestors| && ancestors[i].timestampMs == r.error.maxTimestampMs)
            && (forall i :: 0 <= i < |ancestors| ==> ancestors[i].timestampMs <= r.error.maxTimestampMs)
  {
    var maxTs := 0;
    for i := 0 to |ancestors|
      invariant forall j :: 0 <= j < i ==> ancestors[j].timestampMs <= maxTs
      invariant maxTs == 0 || exists j :: 0 <= j < i && ancestors[j].timestampMs == maxTs
    {
      if ancestors[i].timestampMs > maxTs { maxTs := ancestors[i].timestampMs; }
    }
    if maxTs > b.timestampMs { return Rejected(InvalidBlockTimestamp(maxTs, b.timestampMs)); }
    return Verified;
  }
}
