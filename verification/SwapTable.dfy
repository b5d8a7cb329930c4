/** The leader swap table: low scorers elected as leaders are replaced by high scorers. */
module SwapTable {
  import opened Committees
  import opened Ranking
  import opened StableSort

  /** `ranking` holds the scores in descending order, best first. */
  datatype Table = Table(good: seq<nat>, bad: set<nat>, ranking: seq<Entry>)

  datatype Built = Built(table: Table) | BadThreshold | BadScores

  datatype Swapped = Keep | Swap(leader: nat) | MultiLeader | NoGoodNode

  const DEFAULT: Table := Table([], {}, [])

  /** The stake either end of the ranking may hold, for a threshold in percent. */
  function Cutoff(c: Committee, threshold: nat): nat { threshold * c.TotalStake() / 100 }

  function StakeSum(c: Committee, order: seq<Entry>): nat
    requires forall i :: 0 <= i < |order| ==> c.IsValidIndex(order[i].authority)
  {
    if order == [] then 0 else StakeSum(c, order[..|order| - 1]) + c.Stake(order[|order| - 1].authority)
  }

  /** Where taking authorities in order stops: before the first that exceeds the cutoff. */
  ghost predicate StopsAt(c: Committee, cutoff: nat, order: seq<Entry>, k: nat)
    requires forall i :: 0 <= i < |order| ==> c.IsValidIndex(order[i].authority)
  {
    k <= |order| && StakeSum(c, order[..k]) <= cutoff && (k < |order| ==> StakeSum(c, order[..k + 1]) > cutoff)
  }

  method RetrieveFirstNodes(c: Committee, order: seq<Entry>, threshold: nat) returns (nodes: seq<nat>)
    requires forall i :: 0 <= i < |order| ==> c.IsValidIndex(order[i].authority)
    ensures |nodes| <= |order| && StopsAt(c, Cutoff(c, threshold), order, |nodes|)
    ensures forall i :: 0 <= i < |nodes| ==> nodes[i] == order[i].authority
  {
    hide Cutoff;
    nodes := [];
    var stake := 0;
    for i := 0 to |order|
      invariant |nodes| == i && stake == StakeSum(c, order[..i]) && stake <= Cutoff(c, threshold)
      invariant forall j :: 0 <= j < i ==> nodes[j] == order[j].authority
    {
      stake := stake + c.Stake(order[i].authority);
      assert order[..i + 1][..i] == order[..i];
      if stake > Cutoff(c, threshold) { return; }
      nodes := nodes + [order[i].authority];
    }
  }

  function Reversed(order: seq<Entry>): seq<Entry> {
    seq(|order|, i requires 0 <= i < |order| => order[|order| - 1 - i])
  }

  function Entries(scores: seq<nat>): seq<Entry> {
    seq(|scores|, i requires 0 <= i < |scores| => Entry(scores[i], i))
  }

  ghost predicate Permutes(shuffle: seq<Entry> -> seq<Entry>) {
    forall xs :: multiset(shuffle(xs)) == multiset(xs)
  }

  /** The ranking is the shuffled scores, stably sorted. */
  ghost predicate RankingOf(scores: seq<nat>, shuffle: seq<Entry> -> seq<Entry>, ranking: seq<Entry>) {
    SortedBy(ranking, Descending) && Rearranged(shuffle(Entries(scores)), ranking, Descending)
  }

  /** Good and bad are the two ends of the ranking, each as long as the cutoff allows. */
  ghost predicate Ends(c: Committee, cutoff: nat, t: Table, b: nat) {
    && (forall i :: 0 <= i < |t.ranking| ==> c.IsValidIndex(t.ranking[i].authority))
    && StopsAt(c, cutoff, t.ranking, |t.good|) && (forall i :: 0 <= i < |t.good| ==> t.good[i] == t.ranking[i].authority)
    && StopsAt(c, cutoff, Reversed(t.ranking), b) && t.bad == Authorities(Reversed(t.ranking)[..b])
  }

  ghost predicate IsTable(c: Committee, threshold: nat, scores: seq<nat>, t: Table) {
    if scores == [] then t == DEFAULT
    else |scores| == c.Size() && Ranked(scores, t.ranking) && exists b: nat :: Ends(c, Cutoff(c, threshold), t, b)
  }

  /** Builds the table; `shuffle` stands for the generator seeded with the commit index. */
  method NewTable(c: Committee, threshold: nat, scores: seq<nat>, shuffle: seq<Entry> -> seq<Entry>) returns (r: Built)
    requires c.WellFormed() && Permutes(shuffle)
    ensures r.BadThreshold? <==> threshold > 33
    ensures r.BadScores? <==> threshold <= 33 && scores != [] && |scores| != c.Size()
    ensures r.Built? ==> IsTable(c, threshold, scores, r.table) && (scores != [] ==> RankingOf(scores, shuffle, r.table.ranking))
  {
    hide Rearranged;
    hide StopsAt;
    hide Cutoff;
    if threshold > 33 { return BadThreshold; }
    if scores == [] { return Built(DEFAULT); }
    if |scores| != c.Size() { return BadScores; }
    var ranking := SortByKey(shuffle(Entries(scores)), Descending);
    RankedOf(scores, shuffle, ranking);
    var good := RetrieveFirstNodes(c, ranking, threshold);
    var worst := RetrieveFirstNodes(c, Reversed(ranking), threshold);
    var t := Table(good, (set a | a in worst), ranking);
    assert t.bad == Authorities(Reversed(ranking)[..|worst|]);
    assert Ends(c, Cutoff(c, threshold), t, |worst|);
    return Built(t);
  }

  lemma RankedOf(scores: seq<nat>, shuffle: seq<Entry> -> seq<Entry>, ranking: seq<Entry>)
    requires Permutes(shuffle) && RankingOf(scores, shuffle, ranking)
    ensures Ranked(scores, ranking)
  {
    assert multiset(shuffle(Entries(scores))) == multiset(Entries(scores));
    RankedBySort(scores, Entries(scores), ranking);
  }

  function SwapLeader(t: Table, leader: nat, offset: nat, pick: nat): Swapped {
    if leader !in t.bad then Keep
    else if offset != 0 then MultiLeader
    else if t.good == [] then NoGoodNode
    else Swap(t.good[pick % |t.good|])
  }

  // ---------------------------------------------------------------- the two ends

  lemma {:induction false} SumIsStake(c: Committee, order: seq<Entry>)
    requires forall i :: 0 <= i < |order| ==> c.IsValidIndex(order[i].authority)
    requires forall i, j :: 0 <= i < j < |order| ==> order[i].authority != order[j].authority
    ensures StakeSum(c, order) == c.StakeOf(Authorities(order))
    decreases |order|
  {
    if order == [] {
      assert Authorities(order) == {};
      StakeEmpty(c);
    } else {
      var n := |order| - 1;
      SumIsStake(c, order[..n]);
      PrefixAuthorities(order, n);
      assert order[..n + 1] == order;
      StakeAdd(c, Authorities(order[..n]), order[n].authority);
    }
  }

  lemma {:induction false} SumGrows(c: Committee, order: seq<Entry>, k: nat, k': nat)
    requires forall i :: 0 <= i < |order| ==> c.IsValidIndex(order[i].authority)
    requires k <= k' <= |order|
    ensures StakeSum(c, order[..k]) <= StakeSum(c, order[..k'])
  {
    if k < k' {
      SumGrows(c, order, k, k' - 1);
      assert order[..k'][..k' - 1] == order[..k' - 1];
    }
  }

  lemma StopIsUnique(c: Committee, cutoff: nat, order: seq<Entry>, k: nat, k': nat)
    requires forall i :: 0 <= i < |order| ==> c.IsValidIndex(order[i].authority)
    requires StopsAt(c, cutoff, order, k) && StopsAt(c, cutoff, order, k')
    ensures k == k'
  {
    if k < k' { SumGrows(c, order, k + 1, k'); }
    if k' < k { SumGrows(c, order, k' + 1, k); }
  }

  /** Two validators with the same scores and the same seed build the same table. */
  lemma TableIsDetermined(c: Committee, threshold: nat, scores: seq<nat>, shuffle: seq<Entry> -> seq<Entry>, t: Table, t': Table)
    requires IsTable(c, threshold, scores, t) && IsTable(c, threshold, scores, t')
    requires scores != [] ==> RankingOf(scores, shuffle, t.ranking) && RankingOf(scores, shuffle, t'.ranking)
    ensures t == t'
  {
    hide StopsAt;
    if scores != [] {
      StableOrderIsUnique(t.ranking, t'.ranking, Descending);
      var cutoff := Cutoff(c, threshold);
      var b: nat :| Ends(c, cutoff, t, b);
      var b': nat :| Ends(c, cutoff, t', b');
      StopIsUnique(c, cutoff, t.ranking, |t.good|, |t'.good|);
      StopIsUnique(c, cutoff, Reversed(t.ranking), b, b');
      assert t.good == t'.good;
    }
  }

  /** The two ends never meet, whatever the stakes are. */
  lemma EndsApart(c: Committee, threshold: nat, scores: seq<nat>, t: Table, b: nat)
    requires c.WellFormed() && threshold <= 33 && |scores| == c.Size() && Ranked(scores, t.ranking)
    requires Ends(c, Cutoff(c, threshold), t, b)
    ensures c.StakeOf(t.bad) <= Cutoff(c, threshold)
    ensures |t.good| + b < |t.ranking|
  {
    hide Cutoff;
    var r, g := t.ranking, |t.good|;
    var top := Authorities(r[..g]);
    SumIsStake(c, r[..g]);
    SumIsStake(c, Reversed(r)[..b]);
    CutoffIsSmall(c, threshold);
    if g + b >= |r| { EndsCover(c, scores, r, g, b); }
  }

  lemma EndsCover(c: Committee, scores: seq<nat>, r: seq<Entry>, g: nat, b: nat)
    requires |scores| == c.Size() && Ranked(scores, r) && g <= |r| && b <= |r| && g + b >= |r|
    ensures c.StakeOf(Authorities(r[..g])) + c.StakeOf(Authorities(Reversed(r)[..b])) >= c.TotalStake()
  {
    hide Authorities;
    var top, bottom := Authorities(r[..g]), Authorities(Reversed(r)[..b]);
    forall a | 0 <= a < c.Size() ensures a in top + bottom {
      var i :| 0 <= i < |r| && r[i] == Entry(scores[a], a);
      InTop(r, g, a);
      InBottom(r, b, a);
    }
    StakeAtMostTotal(c, top + bottom);
    StakeUnion(c, top, bottom);
  }

  lemma CutoffIsSmall(c: Committee, threshold: nat)
    requires c.WellFormed() && threshold <= 33
    ensures 2 * Cutoff(c, threshold) < c.TotalStake() && !c.ReachedValidity(Cutoff(c, threshold))
  {
    var total := c.TotalStake();
    assert threshold * total <= 33 * total;
  }

  lemma InTop(r: seq<Entry>, g: nat, a: nat)
    requires g <= |r|
    ensures a in Authorities(r[..g]) <==> exists i :: 0 <= i < g && r[i].authority == a
  {
    if a in Authorities(r[..g]) {
      var i :| 0 <= i < g && r[..g][i].authority == a;
      assert r[i].authority == a;
    }
    if i :| 0 <= i < g && r[i].authority == a {
      assert r[..g][i].authority == a;
    }
  }

  lemma InBottom(r: seq<Entry>, b: nat, a: nat)
    requires b <= |r|
    ensures a in Authorities(Reversed(r)[..b]) <==> exists i :: |r| - b <= i < |r| && r[i].authority == a
  {
    if a in Authorities(Reversed(r)[..b]) {
      var i :| 0 <= i < b && Reversed(r)[..b][i].authority == a;
      assert r[|r| - 1 - i].authority == a;
    }
    if i :| |r| - b <= i < |r| && r[i].authority == a {
      assert Reversed(r)[..b][|r| - 1 - i].authority == a;
    }
  }

  /** No authority is both good and bad, good ones score at least as high as all others, bad ones
      at most as high; and the bad ones never hold the stake that could block a quorum. */
  lemma GoodAndBad(c: Committee, threshold: nat, scores: seq<nat>, t: Table, a: nat, x: nat)
    requires c.WellFormed() && threshold <= 33 && scores != [] && IsTable(c, threshold, scores, t)
    requires a < |scores| && x < |scores|
    ensures !(a in t.good && a in t.bad)
    ensures a in t.good && x !in t.good ==> scores[a] >= scores[x]
    ensures a in t.bad && x !in t.bad ==> scores[a] <= scores[x]
    ensures !c.ReachedValidity(c.StakeOf(t.bad))
  {
    hide StopsAt;
    hide Cutoff;
    var b: nat :| Ends(c, Cutoff(c, threshold), t, b);
    EndsApart(c, threshold, scores, t, b);
    CutoffIsSmall(c, threshold);
    StopsWithin(c, Cutoff(c, threshold), t, b);
    GoodNodeScores(scores, t, b, a, x);
    BadNodeScores(scores, t, b, a, x);
  }

  lemma StopsWithin(c: Committee, cutoff: nat, t: Table, b: nat)
    requires Ends(c, cutoff, t, b)
    ensures |t.good| <= |t.ranking| && b <= |t.ranking|
  {
  }

  lemma GoodNodeScores(scores: seq<nat>, t: Table, b: nat, a: nat, x: nat)
    requires Ranked(scores, t.ranking) && |t.good| + b < |t.ranking|
    requires forall i :: 0 <= i < |t.good| ==> t.good[i] == t.ranking[i].authority
    requires t.bad == Authorities(Reversed(t.ranking)[..b])
    requires a < |scores| && x < |scores|
    ensures !(a in t.good && a in t.bad)
    ensures a in t.good && x !in t.good ==> scores[a] >= scores[x]
  {
    InBottom(t.ranking, b, a);
    if i :| 0 <= i < |t.good| && t.good[i] == a {
      var j :| 0 <= j < |t.ranking| && t.ranking[j] == Entry(scores[x], x);
      assert x !in t.good ==> i < j by { if j < |t.good| { assert t.good[j] == x; } }
      assert t.ranking[i].authority == a;
    }
  }

  lemma BadNodeScores(scores: seq<nat>, t: Table, b: nat, a: nat, x: nat)
    requires Ranked(scores, t.ranking) && b <= |t.ranking| && t.bad == Authorities(Reversed(t.ranking)[..b])
    requires a < |scores| && x < |scores|
    ensures a in t.bad && x !in t.bad ==> scores[a] <= scores[x]
  {
    InBottom(t.ranking, b, a);
    InBottom(t.ranking, b, x);
    if a in t.bad && x !in t.bad {
      var i :| |t.ranking| - b <= i < |t.ranking| && t.ranking[i].authority == a;
      var j :| 0 <= j < |t.ranking| && t.ranking[j] == Entry(scores[x], x);
      assert j < i;
    }
  }

  lemma PercentExactly(c: Committee, threshold: nat, stake: nat)
    ensures stake <= Cutoff(c, threshold) <==> 100 * stake <= threshold * c.TotalStake()
  {
  }

  /** Authorities of the ranking from position i up to j. */
  ghost function Between(r: seq<Entry>, i: int, j: int): set<nat> {
    set k | 0 <= k < |r| && i <= k < j :: r[k].authority
  }

  lemma StopByPercent(c: Committee, threshold: nat, order: seq<Entry>, k: nat)
    requires forall i :: 0 <= i < |order| ==> c.IsValidIndex(order[i].authority)
    requires forall i, j :: 0 <= i < j < |order| ==> order[i].authority != order[j].authority
    requires k < |order| && StopsAt(c, Cutoff(c, threshold), order, k)
    ensures 100 * c.StakeOf(Authorities(order[..k])) <= threshold * c.TotalStake() < 100 * c.StakeOf(Authorities(order[..k + 1]))
  {
    hide Cutoff;
    SumIsStake(c, order[..k]);
    SumIsStake(c, order[..k + 1]);
    PercentExactly(c, threshold, c.StakeOf(Authorities(order[..k])));
    PercentExactly(c, threshold, c.StakeOf(Authorities(order[..k + 1])));
  }

  lemma TopIsBetween(r: seq<Entry>, g: nat)
    requires g <= |r|
    ensures Authorities(r[..g]) == Between(r, 0, g)
  {
    forall a ensures a in Authorities(r[..g]) <==> a in Between(r, 0, g) { InTop(r, g, a); }
  }

  lemma BottomIsBetween(r: seq<Entry>, b: nat)
    requires b <= |r|
    ensures Authorities(Reversed(r)[..b]) == Between(r, |r| - b, |r|)
  {
    forall a ensures a in Authorities(Reversed(r)[..b]) <==> a in Between(r, |r| - b, |r|) { InBottom(r, b, a); }
  }

  lemma TopByPercent(c: Committee, threshold: nat, r: seq<Entry>, g: nat)
    requires forall i :: 0 <= i < |r| ==> c.IsValidIndex(r[i].authority)
    requires forall i, j :: 0 <= i < j < |r| ==> r[i].authority != r[j].authority
    requires g < |r| && StopsAt(c, Cutoff(c, threshold), r, g)
    ensures 100 * c.StakeOf(Between(r, 0, g)) <= threshold * c.TotalStake() < 100 * c.StakeOf(Between(r, 0, g + 1))
  {
    hide Cutoff;
    hide StopsAt;
    TopIsBetween(r, g);
    TopIsBetween(r, g + 1);
    StopByPercent(c, threshold, r, g);
  }

  lemma BottomByPercent(c: Committee, threshold: nat, r: seq<Entry>, b: nat)
    requires forall i :: 0 <= i < |r| ==> c.IsValidIndex(r[i].authority)
    requires forall i, j :: 0 <= i < j < |r| ==> r[i].authority != r[j].authority
    requires b < |r| && StopsAt(c, Cutoff(c, threshold), Reversed(r), b)
    ensures Authorities(Reversed(r)[..b]) == Between(r, |r| - b, |r|)
    ensures 100 * c.StakeOf(Between(r, |r| - b, |r|)) <= threshold * c.TotalStake() < 100 * c.StakeOf(Between(r, |r| - b - 1, |r|))
  {
    hide Cutoff;
    hide StopsAt;
    BottomIsBetween(r, b);
    BottomIsBetween(r, b + 1);
    StopByPercent(c, threshold, Reversed(r), b);
  }

  /** Each end holds at most `threshold` percent of the stake, and with one more authority of the
      ranking it would hold more; the bad ones start at position `first`. */
  lemma EndsByPercent(c: Committee, threshold: nat, scores: seq<nat>, t: Table) returns (first: nat)
    requires c.WellFormed() && threshold <= 33 && scores != [] && IsTable(c, threshold, scores, t)
    ensures |t.good| < first <= |t.ranking|
    ensures forall i :: 0 <= i < |t.good| ==> t.good[i] == t.ranking[i].authority
    ensures t.bad == Between(t.ranking, first, |t.ranking|)
    ensures 100 * c.StakeOf(Between(t.ranking, 0, |t.good|)) <= threshold * c.TotalStake() < 100 * c.StakeOf(Between(t.ranking, 0, |t.good| + 1))
    ensures 100 * c.StakeOf(t.bad) <= threshold * c.TotalStake() < 100 * c.StakeOf(Between(t.ranking, first - 1, |t.ranking|))
  {
    hide Cutoff;
    hide Authorities;
    hide Between;
    hide StopsAt;
    hide Reversed;
    var b: nat :| Ends(c, Cutoff(c, threshold), t, b);
    EndsApart(c, threshold, scores, t, b);
    first := |t.ranking| - b;
    RankedApart(scores, t.ranking);
    TopByPercent(c, threshold, t.ranking, |t.good|);
    BottomByPercent(c, threshold, t.ranking, b);
  }

  lemma RankedApart(scores: seq<nat>, r: seq<Entry>)
    requires Ranked(scores, r)
    ensures forall i, j :: 0 <= i < j < |r| ==> r[i].authority != r[j].authority
  {
  }

  // ---------------------------------------------------------------- swapping

  /** The leader that results is never a bad node; only a bad one is replaced. */
  lemma SwappedIsNotBad(c: Committee, threshold: nat, scores: seq<nat>, t: Table, leader: nat, offset: nat, pick: nat)
    requires c.WellFormed() && threshold <= 33 && IsTable(c, threshold, scores, t)
    ensures SwapLeader(t, leader, offset, pick).Keep? <==> leader !in t.bad
    ensures SwapLeader(t, leader, offset, pick).Swap? ==>
              var elected := SwapLeader(t, leader, offset, pick).leader;
              elected in t.good && elected !in t.bad && c.IsValidIndex(elected)
  {
    hide StopsAt;
    if SwapLeader(t, leader, offset, pick).Swap? {
      var elected := SwapLeader(t, leader, offset, pick).leader;
      var b: nat :| Ends(c, Cutoff(c, threshold), t, b);
      StopsWithin(c, Cutoff(c, threshold), t, b);
      GoodAndBad(c, threshold, scores, t, elected, elected);
    }
  }

  /** Every good node may be the one that takes over. */
  lemma AnyGoodNode(t: Table, leader: nat, pick: nat)
    requires leader in t.bad && pick < |t.good|
    ensures SwapLeader(t, leader, 0, pick) == Swap(t.good[pick])
  {
    assert pick % |t.good| == pick;
  }

  lemma EmptyEnds(c: Committee, cutoff: nat, order: seq<Entry>, k: nat)
    requires forall i :: 0 <= i < |order| ==> c.IsValidIndex(order[i].authority)
    requires order != [] && StopsAt(c, cutoff, order, k)
    ensures k == 0 <==> c.Stake(order[0].authority) > cutoff
  {
    assert order[..1][..0] == [];
    assert StakeSum(c, order[..1]) == c.Stake(order[0].authority);
    if k > 0 { SumGrows(c, order, 1, k); }
  }

  /** For a single leader per round, swapping fails for some leader exactly when the best scorer
      alone exceeds the cutoff and the worst scorer does not. */
  lemma SwapFailsExactly(c: Committee, threshold: nat, scores: seq<nat>, t: Table, pick: nat)
    requires c.WellFormed() && threshold <= 33 && IsTable(c, threshold, scores, t)
    ensures (exists leader :: SwapLeader(t, leader, 0, pick).NoGoodNode?)
       <==> && scores != []
            && c.Stake(t.ranking[0].authority) > Cutoff(c, threshold)
            && c.Stake(t.ranking[|scores| - 1].authority) <= Cutoff(c, threshold)
  {
    hide Cutoff;
    hide StopsAt;
    hide Ranked;
    if scores != [] {
      var cutoff := Cutoff(c, threshold);
      var b: nat :| Ends(c, cutoff, t, b);
      RankedLength(scores, t.ranking);
      StopsWithin(c, cutoff, t, b);
      EmptyEnds(c, cutoff, t.ranking, |t.good|);
      EmptyEnds(c, cutoff, Reversed(t.ranking), b);
      BadIsEmpty(t.ranking, b);
      assert SwapLeader(t, t.ranking[|scores| - 1].authority, 0, pick).NoGoodNode? <==> t.good == [] && b > 0;
    }
  }

  lemma RankedLength(scores: seq<nat>, r: seq<Entry>)
    requires Ranked(scores, r)
    ensures |r| == |scores|
  {
  }

  lemma BadIsEmpty(r: seq<Entry>, b: nat)
    requires b <= |r| && r != []
    ensures b == 0 ==> Authorities(Reversed(r)[..b]) == {}
    ensures b > 0 ==> r[|r| - 1].authority in Authorities(Reversed(r)[..b])
  {
    InBottom(r, b, r[|r| - 1].authority);
  }

  const HEAVY: Committee := Committee(0, [40, 20, 20, 20])
  const HEAVY_RANKING: seq<Entry> := [Entry(4, 0), Entry(3, 1), Entry(2, 2), Entry(1, 3)]

  /** Such a committee exists: the best scorer holds 40 percent, so there is nobody to swap in. */
  lemma HeavyLeaderFails(pick: nat)
    ensures HEAVY.WellFormed() && IsTable(HEAVY, 33, [4, 3, 2, 1], Table([], {3}, HEAVY_RANKING))
    ensures SwapLeader(Table([], {3}, HEAVY_RANKING), 3, 0, pick).NoGoodNode?
  {
    var t := Table([], {3}, HEAVY_RANKING);
    HeavyTotal();
    HeavyEnds();
    HeavyRanked();
  }

  lemma HeavyTotal()
    ensures HEAVY.TotalStake() == 100
  {
    var s := HEAVY.stakes;
    assert s[..3][..2] == s[..2] && s[..2][..1] == s[..1];
    assert Sum(s[..1]) == 40;
    assert Sum(s[..2]) == 60;
    assert Sum(s[..3]) == 80;
  }

  lemma HeavyRanked()
    ensures Ranked([4, 3, 2, 1], HEAVY_RANKING)
  {
    var r := HEAVY_RANKING;
    assert r[0] == Entry(4, 0) && r[1] == Entry(3, 1) && r[2] == Entry(2, 2) && r[3] == Entry(1, 3);
    var scores := [4, 3, 2, 1];
    assert forall i :: 0 <= i < 4 ==> r[i].authority == i && r[i].value == 4 - i && scores[i] == 4 - i;
  }

  lemma HeavyEnds()
    ensures Ends(HEAVY, Cutoff(HEAVY, 33), Table([], {3}, HEAVY_RANKING), 1)
  {
    HeavyTotal();
    var r := HEAVY_RANKING;
    var v := Reversed(r);
    assert r[..1] == [Entry(4, 0)] && r[..0] == [];
    assert v[..1] == [Entry(1, 3)] && v[..2] == [Entry(1, 3), Entry(2, 2)];
    assert v[..2][..1] == v[..1];
    assert StakeSum(HEAVY, v[..1]) == 20;
    assert StakeSum(HEAVY, v[..2]) == 40;
    assert Authorities(v[..1]) == {3} by { assert v[..1][0].authority == 3; }
  }
}
