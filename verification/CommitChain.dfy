/** Verification of fetched commits: a hash chain whose last link a quorum has voted for. */
module CommitChain {
  import opened Committees
  import opened StakeAggregators
  import opened Blocks
  import opened BlockVerifier

  type Bytes = seq<nat>

  datatype Commit = Commit(index: nat, previousDigest: nat, timestampMs: nat, leader: BlockRef, blocks: seq<BlockRef>)

  datatype TrustedCommit = TrustedCommit(commit: Commit, serialized: Bytes, digest: nat)

  /** Parsing and hashing of what comes over the wire. */
  datatype Wire = Wire(ctx: Context, commitOf: Bytes -> Option<Commit>, blockOf: Bytes -> Option<Block>, digestOf: Bytes -> nat)

  datatype Error =
    | MalformedCommit
    | UnexpectedStartCommit(commit: Commit)
    | UnexpectedCommitSequence(previous: Commit, current: Commit)
    | NoCommitReceived
    | MalformedBlock
    | InvalidBlock(error: VerifyError)
    | NotEnoughCommitVotes(stake: nat, commit: Commit)

  datatype Reply = Trusted(commits: seq<TrustedCommit>) | Refused(error: Error)

  // ---------------------------------------------------------------- what is accepted

  /** How many commits of a reply are used: none past the end of the requested range. */
  function Used(start: nat, end: nat, count: nat): nat {
    var wanted := if start <= end then end - start + 1 else 0;
    if count < wanted then count else wanted
  }

  /** How many are looked at: the one that goes past the end is still checked. */
  function Examined(start: nat, end: nat, count: nat): nat {
    var used := Used(start, end, count);
    if used < count then used + 1 else used
  }

  /** Position i parses, has the right index and names the digest of the one before. */
  ghost predicate Linked(w: Wire, start: nat, raw: seq<Bytes>, i: nat)
    requires i < |raw|
  {
    && w.commitOf(raw[i]).Some?
    && w.commitOf(raw[i]).value.index == start + i
    && (i > 0 ==> w.commitOf(raw[i]).value.previousDigest == w.digestOf(raw[i - 1]))
  }

  ghost predicate Chain(w: Wire, start: nat, raw: seq<Bytes>, n: nat)
    requires n <= |raw|
  {
    forall i :: 0 <= i < n ==> Linked(w, start, raw, i)
  }

  /** What is wrong with the commit at position i, those before being in order. */
  ghost function FaultAt(w: Wire, start: nat, raw: seq<Bytes>, i: nat): Option<Error>
    requires i < |raw| && Chain(w, start, raw, i)
  {
    if w.commitOf(raw[i]).None? then Some(MalformedCommit)
    else
      var commit := w.commitOf(raw[i]).value;
      if i == 0 then if commit.index != start then Some(UnexpectedStartCommit(commit)) else None
      else
        assert Linked(w, start, raw, i - 1);
        var previous := w.commitOf(raw[i - 1]).value;
        if commit.index != previous.index + 1 || commit.previousDigest != w.digestOf(raw[i - 1])
        then Some(UnexpectedCommitSequence(previous, commit)) else None
  }

  /** `e` is what is wrong with the first commit out of order. */
  ghost predicate FirstChainFault(w: Wire, start: nat, raw: seq<Bytes>, n: nat, e: Error)
    requires n <= |raw|
  {
    exists i :: 0 <= i < n && Chain(w, start, raw, i) && FaultAt(w, start, raw, i) == Some(e)
  }

  /** `e` is what is wrong with the first bad block. */
  ghost predicate FirstBlockFault(w: Wire, blocks: seq<Bytes>, e: Error) {
    exists i :: 0 <= i < |blocks| && (forall j :: 0 <= j < i ==> GoodBlock(w, blocks[j])) && !GoodBlock(w, blocks[i])
                && if w.blockOf(blocks[i]).None? then e == MalformedBlock
                   else e.InvalidBlock? && Rejection(w.ctx, w.blockOf(blocks[i]).value, e.error)
  }

  ghost predicate GoodBlock(w: Wire, raw: Bytes) {
    w.blockOf(raw).Some? && ValidBlock(w.ctx, w.blockOf(raw).value)
  }

  /** Authors of the first n blocks that vote for the commit. */
  ghost function Voters(w: Wire, raw: seq<Bytes>, n: nat, vote: CommitRef): set<nat>
    requires n <= |raw|
  {
    set i | 0 <= i < n && w.blockOf(raw[i]).Some? && vote in w.blockOf(raw[i]).value.commitVotes
      :: w.blockOf(raw[i]).value.author
  }

  ghost function LastRef(w: Wire, start: nat, end: nat, raw: seq<Bytes>): CommitRef
    requires Used(start, end, |raw|) > 0
  {
    var n := Used(start, end, |raw|);
    CommitRef(start + n - 1, w.digestOf(raw[n - 1]))
  }

  ghost predicate Acceptable(w: Wire, start: nat, end: nat, raw: seq<Bytes>, blocks: seq<Bytes>) {
    && Chain(w, start, raw, Examined(start, end, |raw|))
    && Used(start, end, |raw|) > 0
    && (forall i :: 0 <= i < |blocks| ==> GoodBlock(w, blocks[i]))
    && w.ctx.committee.IsQuorum(Voters(w, blocks, |blocks|, LastRef(w, start, end, raw)))
  }

  /** Why a reply is refused: the first check it fails. */
  ghost predicate Refusal(w: Wire, start: nat, end: nat, raw: seq<Bytes>, blocks: seq<Bytes>, e: Error) {
    var n := Examined(start, end, |raw|);
    if !Chain(w, start, raw, n) then FirstChainFault(w, start, raw, n, e)
    else if Used(start, end, |raw|) == 0 then e == NoCommitReceived
    else if exists i :: 0 <= i < |blocks| && !GoodBlock(w, blocks[i]) then FirstBlockFault(w, blocks, e)
    else
      && e.NotEnoughCommitVotes?
      && e.stake == w.ctx.committee.StakeOf(Voters(w, blocks, |blocks|, LastRef(w, start, end, raw)))
      && Some(e.commit) == w.commitOf(raw[Used(start, end, |raw|) - 1])
  }

  /** The trusted commit made of position i. */
  ghost function TrustedAt(w: Wire, raw: seq<Bytes>, i: nat): TrustedCommit
    requires i < |raw| && w.commitOf(raw[i]).Some?
  {
    TrustedCommit(w.commitOf(raw[i]).value, raw[i], w.digestOf(raw[i]))
  }

  // ---------------------------------------------------------------- checking a reply

  /** Parses commits and checks the chain. */
  method ParseChain(w: Wire, start: nat, end: nat, raw: seq<Bytes>) returns (commits: seq<(nat, Commit)>, error: Option<Error>)
    ensures error.None? <==> Chain(w, start, raw, Examined(start, end, |raw|))
    ensures error.None? <==> forall i :: 0 <= i < |raw| && (i == 0 || start + i <= end + 1) ==> Linked(w, start, raw, i)
    ensures error.None? ==>
              && start + |commits| <= Max(start, end + 1) && (|commits| == |raw| || start + |commits| == Max(start, end + 1))
              && forall i :: 0 <= i < |commits| ==> commits[i].1.index == start + i <= end
    ensures error.Some? ==> FirstChainFault(w, start, raw, Examined(start, end, |raw|), error.value)
    ensures error.None? ==>
              && |commits| == Used(start, end, |raw|)
              && forall i :: 0 <= i < |commits| ==> w.commitOf(raw[i]).Some? && commits[i] == (w.digestOf(raw[i]), w.commitOf(raw[i]).value)
  {
    ChainExactly(w, start, end, raw);
    commits := [];
    error := None;
    for i := 0 to |raw|
      invariant |commits| == i && i <= Used(start, end, |raw|) && Chain(w, start, raw, i) && error.None?
      invariant forall j :: 0 <= j < i ==> commits[j].1.index == start + j <= end
      invariant forall j :: 0 <= j < i ==> w.commitOf(raw[j]).Some? && commits[j] == (w.digestOf(raw[j]), w.commitOf(raw[j]).value)
    {
      assert i < Examined(start, end, |raw|);
      var parsed := w.commitOf(raw[i]);
      if parsed.None? {
        assert !Linked(w, start, raw, i) && FaultAt(w, start, raw, i) == Some(MalformedCommit);
        return commits, Some(MalformedCommit);
      }
      var commit, digest := parsed.value, w.digestOf(raw[i]);
      if commits == [] {
        if commit.index != start {
          assert !Linked(w, start, raw, i) && FaultAt(w, start, raw, i) == Some(UnexpectedStartCommit(commit));
          return commits, Some(UnexpectedStartCommit(commit));
        }
      } else {
        var (lastDigest, last) := commits[|commits| - 1];
        assert Linked(w, start, raw, i - 1);
        if commit.index != last.index + 1 || commit.previousDigest != lastDigest {
          assert !Linked(w, start, raw, i) && FaultAt(w, start, raw, i) == Some(UnexpectedCommitSequence(last, commit));
          return commits, Some(UnexpectedCommitSequence(last, commit));
        }
      }
      assert Linked(w, start, raw, i);
      if commit.index > end { break; }
      commits := commits + [(digest, commit)];
    }
  }

  lemma VotersStep(w: Wire, raw: seq<Bytes>, n: nat, vote: CommitRef)
    requires n < |raw| && w.blockOf(raw[n]).Some?
    ensures Voters(w, raw, n + 1, vote)
         == Voters(w, raw, n, vote) + if vote in w.blockOf(raw[n]).value.commitVotes then {w.blockOf(raw[n]).value.author} else {}
  {
  }

  /** Verifies the blocks and sums up the stake that votes for the commit. */
  method CountVotes(w: Wire, blocks: seq<Bytes>, vote: CommitRef) returns (reached: bool, stake: nat, error: Option<Error>)
    requires w.ctx.committee.WellFormed()
    ensures error.None? <==> forall i :: 0 <= i < |blocks| ==> GoodBlock(w, blocks[i])
    ensures error.Some? ==> FirstBlockFault(w, blocks, error.value)
    ensures error.None? ==>
              && stake == w.ctx.committee.StakeOf(Voters(w, blocks, |blocks|, vote))
              && (reached <==> w.ctx.committee.IsQuorum(Voters(w, blocks, |blocks|, vote)))
  {
    hide ValidBlock;
    hide Rejection;
    var c := w.ctx.committee;
    var votes := new StakeAggregator(Quorum, c);
    reached, stake, error := false, 0, None;
    assert Voters(w, blocks, 0, vote) == {};
    for i := 0 to |blocks|
      invariant fresh(votes) && votes.Valid(c) && votes.threshold == Quorum && error.None?
      invariant votes.votes == Voters(w, blocks, i, vote)
      invariant forall j :: 0 <= j < i ==> GoodBlock(w, blocks[j])
    {
      var parsed := w.blockOf(blocks[i]);
      if parsed.None? { return false, 0, Some(MalformedBlock); }
      var verdict := Verify(w.ctx, parsed.value);
      if verdict.Rejected? { return false, 0, Some(InvalidBlock(verdict.error)); }
      VotersStep(w, blocks, i, vote);
      ValidAuthor(w.ctx, parsed.value);
      var block := parsed.value;
      ghost var before := votes.votes;
      for k := 0 to |block.commitVotes|
        invariant fresh(votes) && votes.Valid(c) && votes.threshold == Quorum
        invariant votes.votes == before + if vote in block.commitVotes[..k] then {block.author} else {}
      {
        if block.commitVotes[k] == vote { var _ := votes.Add(block.author, c); }
      }
      assert block.commitVotes[..|block.commitVotes|] == block.commitVotes;
    }
    reached := votes.ReachedThreshold(c);
    stake := votes.stake;
  }

  lemma ValidAuthor(ctx: Context, b: Block)
    requires ValidBlock(ctx, b)
    ensures ctx.committee.IsValidIndex(b.author)
  {
  }

  /** Accepts a reply exactly when it is a chain from `start` whose last used commit a quorum has
      voted for; each trusted commit is paired with its own bytes. */
  method VerifyCommits(w: Wire, start: nat, end: nat, raw: seq<Bytes>, blocks: seq<Bytes>) returns (reply: Reply)
    requires w.ctx.committee.WellFormed()
    ensures reply.Trusted? <==> Acceptable(w, start, end, raw, blocks)
    ensures reply.Refused? ==> Refusal(w, start, end, raw, blocks, reply.error)
    ensures reply.Trusted? ==>
              && 0 < |reply.commits| <= |raw| && (|reply.commits| == |raw| || start + |reply.commits| - 1 == end)
              && (forall i :: 0 <= i < |reply.commits| ==>
                    && w.commitOf(raw[i]) == Some(reply.commits[i].commit) && reply.commits[i].commit.index == start + i <= end
                    && reply.commits[i].serialized == raw[i] && reply.commits[i].digest == w.digestOf(raw[i]))
              && (forall i :: 0 < i < |reply.commits| ==> reply.commits[i].commit.previousDigest == reply.commits[i - 1].digest)
              && var last := reply.commits[|reply.commits| - 1];
                 w.ctx.committee.IsQuorum(Voters(w, blocks, |blocks|, CommitRef(last.commit.index, last.digest)))
    ensures var n := if start + |raw| <= end + 1 then |raw| else end + 1 - start;
            && start <= end && raw != [] && (forall i :: 0 <= i < |raw| && (i == 0 || start + i <= end + 1) ==> Linked(w, start, raw, i))
            && (forall i :: 0 <= i < |blocks| ==> GoodBlock(w, blocks[i]))
            && w.ctx.committee.IsQuorum(Voters(w, blocks, |blocks|, CommitRef(start + n - 1, w.digestOf(raw[n - 1]))))
            ==> reply.Trusted? && |reply.commits| == n
  {
    hide GoodBlock;
    hide Voters;
    hide FirstChainFault;
    hide FirstBlockFault;
    hide Used;
    UsedExactly(start, end, |raw|);
    AcceptableExactly(w, start, end, raw, blocks);
    var commits, error := ParseChain(w, start, end, raw);
    if error.Some? { return Refused(error.value); }
    if |commits| == 0 { return Refused(NoCommitReceived); }
    var (digest, last) := commits[|commits| - 1];
    assert Linked(w, start, raw, |commits| - 1);
    var reached, stake, bad := CountVotes(w, blocks, CommitRef(last.index, digest));
    if bad.Some? { return Refused(bad.value); }
    if !reached { return Refused(NotEnoughCommitVotes(stake, last)); }
    var trusted: seq<TrustedCommit> := [];
    for i := 0 to |commits|
      invariant |trusted| == i
      invariant forall j :: 0 <= j < i ==> w.commitOf(raw[j]).Some? && trusted[j] == TrustedAt(w, raw, j)
    {
      assert Linked(w, start, raw, i);
      trusted := trusted + [TrustedCommit(commits[i].1, raw[i], w.digestOf(raw[i]))];
    }
    TrustedAre(w, start, raw, |trusted|, trusted);
    return Trusted(trusted);
  }

  /** The used commits are all, or those up to the end of the range. */
  lemma UsedExactly(start: nat, end: nat, count: nat)
    ensures Used(start, end, count) == if start > end then 0 else if start + count <= end + 1 then count else end + 1 - start
  {
  }

  /** One more is looked at. */
  lemma ExaminedExactly(start: nat, end: nat, count: nat, i: nat)
    requires i < count
    ensures i < Examined(start, end, count) <==> start + i <= end + 1 || i == 0
  {
  }

  lemma ChainExactly(w: Wire, start: nat, end: nat, raw: seq<Bytes>)
    ensures Chain(w, start, raw, Examined(start, end, |raw|))
       <==> forall i :: 0 <= i < |raw| && (i == 0 || start + i <= end + 1) ==> Linked(w, start, raw, i)
  {
    hide Linked;
    var n := Examined(start, end, |raw|);
    if Chain(w, start, raw, n) {
      forall i | 0 <= i < |raw| && (i == 0 || start + i <= end + 1) ensures Linked(w, start, raw, i) {
        ExaminedExactly(start, end, |raw|, i);
      }
    }
    if forall i :: 0 <= i < |raw| && (i == 0 || start + i <= end + 1) ==> Linked(w, start, raw, i) {
      forall i | 0 <= i < n ensures Linked(w, start, raw, i) { ExaminedExactly(start, end, |raw|, i); }
    }
  }

  lemma AcceptableExactly(w: Wire, start: nat, end: nat, raw: seq<Bytes>, blocks: seq<Bytes>)
    ensures var n := if start + |raw| <= end + 1 then |raw| else end + 1 - start;
            Acceptable(w, start, end, raw, blocks) <==>
              && start <= end && raw != [] && (forall i :: 0 <= i < |raw| && (i == 0 || start + i <= end + 1) ==> Linked(w, start, raw, i))
              && (forall i :: 0 <= i < |blocks| ==> GoodBlock(w, blocks[i]))
              && w.ctx.committee.IsQuorum(Voters(w, blocks, |blocks|, CommitRef(start + n - 1, w.digestOf(raw[n - 1]))))
  {
    hide GoodBlock;
    hide Voters;
    hide Linked;
    hide Chain;
    UsedExactly(start, end, |raw|);
    ChainExactly(w, start, end, raw);
  }

  lemma TrustedAre(w: Wire, start: nat, raw: seq<Bytes>, n: nat, trusted: seq<TrustedCommit>)
    requires n <= |raw| && n == |trusted| && Chain(w, start, raw, n)
    requires forall i :: 0 <= i < n ==> w.commitOf(raw[i]).Some? && trusted[i] == TrustedAt(w, raw, i)
    ensures forall i :: 0 <= i < n ==> trusted[i].commit.index == start + i && trusted[i].digest == w.digestOf(raw[i])
    ensures forall i :: 0 < i < n ==> trusted[i].commit.previousDigest == trusted[i - 1].digest
  {
    forall i | 0 <= i < n
      ensures trusted[i].commit.index == start + i && (i > 0 ==> trusted[i].commit.previousDigest == w.digestOf(raw[i - 1]))
    {
      assert Linked(w, start, raw, i);
    }
  }

  lemma VotersExactly(w: Wire, raw: seq<Bytes>, vote: CommitRef, a: nat)
    ensures a in Voters(w, raw, |raw|, vote) <==>
              exists x :: x in raw && w.blockOf(x).Some? && w.blockOf(x).value.author == a && vote in w.blockOf(x).value.commitVotes
  {
    if x :| x in raw && w.blockOf(x).Some? && w.blockOf(x).value.author == a && vote in w.blockOf(x).value.commitVotes {
      var i :| 0 <= i < |raw| && raw[i] == x;
      assert a in Voters(w, raw, |raw|, vote);
    }
  }

  // ---------------------------------------------------------------- agreement

  ghost predicate CollisionFree(w: Wire) {
    forall x, y :: w.digestOf(x) == w.digestOf(y) ==> x == y
  }

  /** Two chains that meet in one link agree on everything before it. */
  lemma {:induction false} ChainsAgreeBelow(w: Wire, start: nat, raw: seq<Bytes>, start': nat, raw': seq<Bytes>, n: nat, n': nat, k: nat)
    requires CollisionFree(w) && n <= |raw| && n' <= |raw'| && Chain(w, start, raw, n) && Chain(w, start', raw', n')
    requires n > 0 && n' > 0 && start + n == start' + n' && raw[n - 1] == raw'[n' - 1]
    requires start <= k < start + n && start' <= k < start' + n'
    ensures raw[k - start] == raw'[k - start']
    decreases n
  {
    if k < start + n - 1 {
      assert Linked(w, start, raw, n - 1) && Linked(w, start', raw', n' - 1);
      ChainsAgreeBelow(w, start, raw, start', raw', n - 1, n' - 1, k);
    }
  }

  /** The verified blocks of a reply are among those that were made, and correct authorities have
      voted for at most one digest per commit index. */
  ghost predicate OneVotePerIndex(byzantine: set<nat>, made: set<Block>) {
    forall b, b', v, v' ::
      && b in made && b' in made && b.author == b'.author && b.author !in byzantine
      && v in b.commitVotes && v' in b'.commitVotes && v.index == v'.index
      ==> v == v'
  }

  ghost predicate Authentic(w: Wire, blocks: seq<Bytes>, made: set<Block>) {
    forall i :: 0 <= i < |blocks| && w.blockOf(blocks[i]).Some? ==> w.blockOf(blocks[i]).value in made
  }

  lemma VoterBlock(w: Wire, blocks: seq<Bytes>, made: set<Block>, vote: CommitRef, a: nat) returns (b: Block)
    requires Authentic(w, blocks, made) && a in Voters(w, blocks, |blocks|, vote)
    ensures b in made && b.author == a && vote in b.commitVotes
  {
    var i :| 0 <= i < |blocks| && w.blockOf(blocks[i]).Some? && vote in w.blockOf(blocks[i]).value.commitVotes
             && w.blockOf(blocks[i]).value.author == a;
    b := w.blockOf(blocks[i]).value;
  }

  /** Replies that end at the same commit agree, byte for byte, on every commit they share. */
  lemma RepliesAgree(w: Wire, byzantine: set<nat>, made: set<Block>,
                     start: nat, end: nat, raw: seq<Bytes>, blocks: seq<Bytes>,
                     start': nat, end': nat, raw': seq<Bytes>, blocks': seq<Bytes>, k: nat)
    requires w.ctx.committee.WellFormed() && CollisionFree(w) && OneVotePerIndex(byzantine, made)
    requires !w.ctx.committee.ReachedValidity(w.ctx.committee.StakeOf(byzantine))
    requires Acceptable(w, start, end, raw, blocks) && Authentic(w, blocks, made)
    requires Acceptable(w, start', end', raw', blocks') && Authentic(w, blocks', made)
    requires start + Used(start, end, |raw|) == start' + Used(start', end', |raw'|)
    requires start <= k < start + Used(start, end, |raw|) && start' <= k
    ensures raw[k - start] == raw'[k - start']
  {
    hide GoodBlock;
    hide Voters;
    var n, n' := Used(start, end, |raw|), Used(start', end', |raw'|);
    var ref, ref' := LastRef(w, start, end, raw), LastRef(w, start', end', raw');
    var h := QuorumsShareHonest(w.ctx.committee, byzantine, Voters(w, blocks, |blocks|, ref), Voters(w, blocks', |blocks'|, ref'));
    var b := VoterBlock(w, blocks, made, ref, h);
    var b' := VoterBlock(w, blocks', made, ref', h);
    assert ref == ref';
    ChainsAgreeBelow(w, start, raw, start', raw', n, n', k);
  }

  /** Correct authorities vote for the commits of one chain each, their own. */
  ghost predicate VotesFromChain(w: Wire, byzantine: set<nat>, made: set<Block>, own: nat -> seq<Bytes>) {
    forall b :: b in made && b.author !in byzantine ==>
      && Chain(w, 1, own(b.author), |own(b.author)|)
      && forall v :: v in b.commitVotes ==> 1 <= v.index <= |own(b.author)| && v.digest == w.digestOf(own(b.author)[v.index - 1])
  }

  /** A reply whose last commit is on a chain from the first commit is a piece of that chain. */
  lemma ReplyFollowsChain(w: Wire, start: nat, raw: seq<Bytes>, n: nat, own: seq<Bytes>, k: nat)
    requires CollisionFree(w) && 0 < n <= |raw| && Chain(w, start, raw, n) && Chain(w, 1, own, |own|)
    requires 1 <= start + n - 1 <= |own| && w.digestOf(raw[n - 1]) == w.digestOf(own[start + n - 2])
    requires start <= k < start + n && 1 <= k
    ensures raw[k - start] == own[k - 1]
  {
    ChainsAgreeBelow(w, start, raw, 1, own, n, start + n - 1, k);
  }

  /** Then any two replies agree on every commit they share, whatever ranges they cover. */
  lemma AllRepliesAgree(w: Wire, byzantine: set<nat>, made: set<Block>, own: nat -> seq<Bytes>,
                        start: nat, end: nat, raw: seq<Bytes>, blocks: seq<Bytes>,
                        start': nat, end': nat, raw': seq<Bytes>, blocks': seq<Bytes>, k: nat)
    requires w.ctx.committee.WellFormed() && CollisionFree(w) && VotesFromChain(w, byzantine, made, own)
    requires !w.ctx.committee.ReachedValidity(w.ctx.committee.StakeOf(byzantine))
    requires Acceptable(w, start, end, raw, blocks) && Authentic(w, blocks, made)
    requires Acceptable(w, start', end', raw', blocks') && Authentic(w, blocks', made)
    requires 1 <= k && start <= k < start + Used(start, end, |raw|) && start' <= k < start' + Used(start', end', |raw'|)
    ensures raw[k - start] == raw'[k - start']
  {
    hide GoodBlock;
    hide Voters;
    var n, n' := Used(start, end, |raw|), Used(start', end', |raw'|);
    var ref, ref' := LastRef(w, start, end, raw), LastRef(w, start', end', raw');
    var h := QuorumsShareHonest(w.ctx.committee, byzantine, Voters(w, blocks, |blocks|, ref), Voters(w, blocks', |blocks'|, ref'));
    var b := VoterBlock(w, blocks, made, ref, h);
    var b' := VoterBlock(w, blocks', made, ref', h);
    ReplyFollowsChain(w, start, raw, n, own(h), k);
    ReplyFollowsChain(w, start', raw', n', own(h), k);
  }
}
