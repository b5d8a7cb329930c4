/** Tracks the highest commit each authority has voted for, and the commit a quorum stands behind. */
module CommitVotes {
  import opened Committees
  import opened Blocks
  import opened Ranking
  import opened StableSort

  const GENESIS_COMMIT_INDEX: nat := 0

  /** Authorities whose highest vote is at least s: a vote counts for all earlier commits too. */
  ghost function Voting(voted: seq<nat>, s: nat): set<nat> {
    set a | 0 <= a < |voted| && voted[a] >= s
  }

  /** The greatest index that authorities with quorum stake have reached. */
  ghost predicate IsQuorumIndex(c: Committee, voted: seq<nat>, s: nat) {
    c.IsQuorum(Voting(voted, s)) && forall t: nat :: c.IsQuorum(Voting(voted, t)) ==> t <= s
  }

  /** Later votes never lower the quorum index. */
  lemma QuorumIndexMonotone(c: Committee, voted: seq<nat>, voted': seq<nat>, s: nat, s': nat)
    requires |voted| == |voted'| && forall a :: 0 <= a < |voted| ==> voted[a] <= voted'[a]
    requires IsQuorumIndex(c, voted, s) && IsQuorumIndex(c, voted', s')
    ensures s <= s'
  {
    StakeMonotone(c, Voting(voted, s), Voting(voted', s));
  }

  function DescendingStake(c: Committee): Entry -> int {
    (v: Entry) => if c.IsValidIndex(v.authority) then 0 - c.Stake(v.authority) else 0
  }

  class CommitVoteMonitor {
    const committee: Committee
    var voted: seq<nat>

    ghost predicate Valid()
      reads this
    {
      committee.WellFormed() && |voted| == committee.Size()
    }

    constructor (committee: Committee)
      requires committee.WellFormed()
      ensures Valid() && this.committee == committee && forall a :: 0 <= a < |voted| ==> voted[a] == 0
    {
      this.committee := committee;
      voted := seq(committee.Size(), _ => 0);
    }

    /** Records the highest commit index voted for in a block. */
    method Observe(block: Block)
      requires Valid() && committee.IsValidIndex(block.author)
      modifies this`voted
      ensures Valid()
      ensures forall a :: 0 <= a < |voted| && a != block.author ==> voted[a] == old(voted)[a]
      ensures voted[block.author] >= old(voted)[block.author]
      ensures forall v :: v in block.commitVotes ==> v.index <= voted[block.author]
      ensures voted[block.author] == old(voted)[block.author] || exists v :: v in block.commitVotes && v.index == voted[block.author]
    {
      for i := 0 to |block.commitVotes|
        invariant Valid()
        invariant forall a :: 0 <= a < |voted| && a != block.author ==> voted[a] == old(voted)[a]
        invariant voted[block.author] >= old(voted)[block.author]
        invariant forall j :: 0 <= j < i ==> block.commitVotes[j].index <= voted[block.author]
        invariant voted[block.author] == old(voted)[block.author] || exists v :: v in block.commitVotes && v.index == voted[block.author]
      {
        var vote := block.commitVotes[i];
        if vote.index > voted[block.author] { voted := voted[block.author := vote.index]; }
      }
    }

    /** The commit index certified by a quorum; sorting by stake and then, stably, by index is the
        descending order of (index, stake) pairs. The default after the loop is never used. */
    method QuorumCommitIndex() returns (s: nat)
      requires Valid()
      ensures IsQuorumIndex(committee, voted, s)
      ensures committee.IsQuorum(set a | 0 <= a < |voted| && voted[a] >= s)
      ensures !committee.IsQuorum(set a | 0 <= a < |voted| && voted[a] > s)
    {
      var highest := voted;
      var votes: seq<Entry> := seq(|highest|, i requires 0 <= i < |highest| => Entry(highest[i], i));
      var byStake := SortByKey(votes, DescendingStake(committee));
      var sorted := SortByKey(byStake, Descending);
      assert multiset(sorted) == multiset(votes);
      RankedBySort(voted, votes, sorted);
      hide Rearranged;
      hide WithKey;
      var total := 0;
      StakeEmpty(committee);
      assert Authorities(sorted[..0]) == {};
      for i := 0 to |sorted|
        invariant total == committee.StakeOf(Authorities(sorted[..i])) && !committee.ReachedQuorum(total)
      {
        PrefixAuthorities(sorted, i);
        StakeAdd(committee, Authorities(sorted[..i]), sorted[i].authority);
        total := total + committee.Stake(sorted[i].authority);
        if total >= committee.QuorumThreshold() {
          QuorumReached(committee, voted, sorted, i);
          AtAndAbove(committee, voted, sorted[i].value);
          return sorted[i].value;
        }
      }
      AllVoted(committee, voted, sorted);
      assert false;
      return GENESIS_COMMIT_INDEX;
    }
  }

  lemma AtAndAbove(c: Committee, voted: seq<nat>, s: nat)
    requires IsQuorumIndex(c, voted, s)
    ensures c.IsQuorum(set a | 0 <= a < |voted| && voted[a] >= s)
    ensures !c.IsQuorum(set a | 0 <= a < |voted| && voted[a] > s)
  {
    assert Voting(voted, s) == set a | 0 <= a < |voted| && voted[a] >= s;
    assert Voting(voted, s + 1) == set a | 0 <= a < |voted| && voted[a] > s;
  }

  /** Where the running sum first reaches quorum is the quorum index. */
  lemma QuorumReached(c: Committee, voted: seq<nat>, sorted: seq<Entry>, i: nat)
    requires Ranked(voted, sorted) && i < |sorted|
    requires !c.IsQuorum(Authorities(sorted[..i])) && c.IsQuorum(Authorities(sorted[..i + 1]))
    ensures IsQuorumIndex(c, voted, sorted[i].value)
  {
    var s := sorted[i].value;
    forall a | a in Authorities(sorted[..i + 1]) ensures a in Voting(voted, s) {
      var j :| 0 <= j <= i && sorted[..i + 1][j].authority == a;
      assert sorted[j].value >= s;
    }
    StakeMonotone(c, Authorities(sorted[..i + 1]), Voting(voted, s));
    forall t: nat | t > s ensures !c.IsQuorum(Voting(voted, t)) {
      forall a | a in Voting(voted, t) ensures a in Authorities(sorted[..i]) {
        var j :| 0 <= j < |sorted| && sorted[j] == Entry(voted[a], a);
        assert j < i;
        assert sorted[..i][j].authority == a;
      }
      StakeMonotone(c, Voting(voted, t), Authorities(sorted[..i]));
    }
  }

  lemma AllVoted(c: Committee, voted: seq<nat>, sorted: seq<Entry>)
    requires c.WellFormed() && Ranked(voted, sorted) && |voted| == c.Size()
    ensures c.IsQuorum(Authorities(sorted[..|sorted|]))
  {
    var all := Authorities(sorted[..|sorted|]);
    forall a | 0 <= a < c.Size() ensures a in all {
      var j :| 0 <= j < |sorted| && sorted[j] == Entry(voted[a], a);
      assert sorted[..|sorted|][j].authority == a;
    }
    StakeAtMostTotal(c, all);
    ThresholdsComplement(c);
  }
}
