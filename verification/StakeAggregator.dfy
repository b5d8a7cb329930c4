/** Accumulates the stake of distinct authorities until a committee threshold is reached. */
module StakeAggregators {
  import opened Committees

  datatype Threshold = Quorum | Validity

  predicate IsThreshold(t: Threshold, c: Committee, amount: nat) {
    match t
    case Quorum => c.ReachedQuorum(amount)
    case Validity => c.ReachedValidity(amount)
  }

  class StakeAggregator {
    const threshold: Threshold
    var votes: set<nat>
    var stake: nat

    /** The running counter is the stake of the set of voters: nobody is counted twice. */
    ghost predicate Valid(c: Committee)
      reads this
    {
      stake == c.StakeOf(votes)
    }

    constructor (threshold: Threshold, ghost c: Committee)
      ensures Valid(c) && votes == {} && this.threshold == threshold
    {
      this.threshold := threshold;
      votes, stake := {}, 0;
      StakeEmpty(c);
    }

    /** Adds a vote; true when the threshold is reached by the distinct voters so far. */
    method Add(vote: nat, c: Committee) returns (reached: bool)
      requires Valid(c) && c.IsValidIndex(vote)
      modifies this
      ensures Valid(c) && votes == old(votes) + {vote}
      ensures reached == IsThreshold(threshold, c, c.StakeOf(votes))
    {
      if vote !in votes {
        StakeAdd(c, votes, vote);
        votes := votes + {vote};
        stake := stake + c.Stake(vote);
      } else {
        assert votes == votes + {vote};
      }
      reached := IsThreshold(threshold, c, stake);
    }

    method ReachedThreshold(c: Committee) returns (reached: bool)
      requires Valid(c)
      ensures reached == IsThreshold(threshold, c, c.StakeOf(votes))
    {
      reached := IsThreshold(threshold, c, stake);
    }

    method Clear(ghost c: Committee)
      modifies this
      ensures Valid(c) && votes == {}
    {
      votes, stake := {}, 0;
      StakeEmpty(c);
    }
  }
}
