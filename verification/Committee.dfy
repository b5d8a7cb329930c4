/** The committee of one epoch: voting power per authority, the two stake
    thresholds, and the quorum arithmetic every safety argument rests on. */
module Committees {

  /** Authorities are named by their index; `stakes[i]` is the voting power of authority i. */
  datatype Committee = Committee(epoch: nat, stakes: seq<nat>) {

    /** What the constructor asserts: not empty, index fits in 32 bits, total stake not zero. */
    ghost predicate WellFormed() {
      0 < |stakes| < 0xFFFF_FFFF && TotalStake() > 0
    }

    function Size(): nat { |stakes| }

    predicate IsValidIndex(a: nat) { a < |stakes| }

    function Stake(a: nat): nat
      requires IsValidIndex(a)
    {
      stakes[a]
    }

    function TotalStake(): nat { Sum(stakes) }

    function QuorumThreshold(): nat { 2 * TotalStake() / 3 + 1 }

    function ValidityThreshold(): nat { (TotalStake() + 2) / 3 }

    predicate ReachedQuorum(stake: nat) { stake >= QuorumThreshold() }

    predicate ReachedValidity(stake: nat) { stake >= ValidityThreshold() }

    /** Stake held by a set of authorities; every authority counts once. */
    function StakeOf(s: set<nat>): nat { StakeBelow(stakes, s, |stakes|) }

    predicate IsQuorum(s: set<nat>) { ReachedQuorum(StakeOf(s)) }
  }

  function Sum(xs: seq<nat>): nat {
    if xs == [] then 0 else Sum(xs[..|xs| - 1]) + xs[|xs| - 1]
  }

  /** Stake of the members of `s` among the first n authorities. */
  function StakeBelow(stakes: seq<nat>, s: set<nat>, n: nat): nat
    requires n <= |stakes|
  {
    if n == 0 then 0
    else StakeBelow(stakes, s, n - 1) + if n - 1 in s then stakes[n - 1] else 0
  }

  lemma {:induction false} StakeBelowMonotone(stakes: seq<nat>, s: set<nat>, t: set<nat>, n: nat)
    requires n <= |stakes|
    requires forall a :: a in s && a < n ==> a in t
    ensures StakeBelow(stakes, s, n) <= StakeBelow(stakes, t, n)
  {
    if n > 0 { StakeBelowMonotone(stakes, s, t, n - 1); }
  }

  lemma {:induction false} StakeBelowUnion(stakes: seq<nat>, s: set<nat>, t: set<nat>, n: nat)
    requires n <= |stakes|
    ensures StakeBelow(stakes, s, n) + StakeBelow(stakes, t, n)
         == StakeBelow(stakes, s + t, n) + StakeBelow(stakes, s * t, n)
  {
    if n > 0 { StakeBelowUnion(stakes, s, t, n - 1); }
  }

  lemma {:induction false} StakeBelowAll(stakes: seq<nat>, s: set<nat>, n: nat)
    requires n <= |stakes|
    ensures StakeBelow(stakes, s, n) <= Sum(stakes[..n])
    ensures (forall a :: 0 <= a < n ==> a in s) ==> StakeBelow(stakes, s, n) == Sum(stakes[..n])
  {
    if n > 0 {
      StakeBelowAll(stakes, s, n - 1);
      assert stakes[..n][..n - 1] == stakes[..n - 1];
    }
  }

  lemma {:induction false} StakeBelowAdd(stakes: seq<nat>, s: set<nat>, a: nat, n: nat)
    requires n <= |stakes| && a !in s
    ensures StakeBelow(stakes, s + {a}, n)
         == StakeBelow(stakes, s, n) + if a < n then stakes[a] else 0
  {
    if n > 0 { StakeBelowAdd(stakes, s, a, n - 1); }
  }

  lemma StakeMonotone(c: Committee, s: set<nat>, t: set<nat>)
    requires s <= t
    ensures c.StakeOf(s) <= c.StakeOf(t)
  {
    StakeBelowMonotone(c.stakes, s, t, |c.stakes|);
  }

  lemma StakeAdd(c: Committee, s: set<nat>, a: nat)
    requires c.IsValidIndex(a) && a !in s
    ensures c.StakeOf(s + {a}) == c.StakeOf(s) + c.Stake(a)
  {
    StakeBelowAdd(c.stakes, s, a, |c.stakes|);
  }

  lemma StakeUnion(c: Committee, s: set<nat>, t: set<nat>)
    ensures c.StakeOf(s) + c.StakeOf(t) == c.StakeOf(s + t) + c.StakeOf(s * t)
  {
    StakeBelowUnion(c.stakes, s, t, |c.stakes|);
  }

  lemma StakeEmpty(c: Committee)
    ensures c.StakeOf({}) == 0
  {
    StakeBelowEmpty(c.stakes, |c.stakes|);
  }

  lemma {:induction false} StakeBelowEmpty(stakes: seq<nat>, n: nat)
    requires n <= |stakes|
    ensures StakeBelow(stakes, {}, n) == 0
  {
    if n > 0 { StakeBelowEmpty(stakes, n - 1); }
  }

  lemma StakeAtMostTotal(c: Committee, s: set<nat>)
    ensures c.StakeOf(s) <= c.TotalStake()
    ensures (forall a :: 0 <= a < c.Size() ==> a in s) ==> c.StakeOf(s) == c.TotalStake()
  {
    StakeBelowAll(c.stakes, s, |c.stakes|);
    assert c.stakes[..|c.stakes|] == c.stakes;
  }

  /** A quorum is more than two thirds of the stake; one third makes a validity threshold. */
  lemma ThresholdsExactly(c: Committee, stake: nat)
    ensures c.ReachedQuorum(stake) <==> 3 * stake > 2 * c.TotalStake()
    ensures c.ReachedValidity(stake) <==> 3 * stake >= c.TotalStake()
  {
  }

  /** The two thresholds are complementary: validity stake is exactly what blocks a quorum. */
  lemma ThresholdsComplement(c: Committee)
    requires c.WellFormed()
    ensures c.QuorumThreshold() <= c.TotalStake()
    ensures c.ValidityThreshold() == c.TotalStake() - c.QuorumThreshold() + 1
  {
    var t := c.TotalStake();
    assert t % 3 == 0 || t % 3 == 1 || t % 3 == 2;
  }

  /** Two quorums overlap in at least the validity threshold. */
  lemma QuorumOverlap(c: Committee, s: set<nat>, t: set<nat>)
    requires c.WellFormed() && c.IsQuorum(s) && c.IsQuorum(t)
    ensures c.ReachedValidity(c.StakeOf(s * t))
  {
    StakeUnion(c, s, t);
    StakeAtMostTotal(c, s + t);
    ThresholdsComplement(c);
  }

  /** When the faulty stake is below the validity threshold, two quorums share a correct authority. */
  lemma QuorumsShareHonest(c: Committee, byzantine: set<nat>, s: set<nat>, t: set<nat>) returns (h: nat)
    requires c.WellFormed() && c.IsQuorum(s) && c.IsQuorum(t)
    requires !c.ReachedValidity(c.StakeOf(byzantine))
    ensures h in s && h in t && h !in byzantine
  {
    QuorumOverlap(c, s, t);
    if forall a :: a in s && a in t ==> a in byzantine {
      StakeMonotone(c, s * t, byzantine);
      assert false;
    }
    h :| h in s && h in t && h !in byzantine;
  }

  lemma QuorumNotEmpty(c: Committee, s: set<nat>) returns (a: nat)
    requires c.IsQuorum(s)
    ensures a in s
  {
    StakeEmpty(c);
    if s == {} { assert false; }
    a :| a in s;
  }
}
