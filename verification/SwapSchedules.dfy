/** The schedules that make the commit loop repeat a round come from swap tables: with authority 0
    chosen by stake in every round, tables swap it for authority 1 or leave it. */
module SwapSchedules {
  import opened Blocks
  import opened Ranking
  import opened SwapTable
  import opened SplitDags
  import opened ScheduleWindow

  const THRESHOLD: nat := 33

  function Elected(t: Table, leader: nat, pick: nat): nat {
    match SwapLeader(t, leader, 0, pick)
    case Swap(other) => other
    case _ => leader
  }

  const KEEP_SCORES: seq<nat> := [4, 3, 2, 1]
  const SWAP_SCORES: seq<nat> := [1, 4, 3, 2]
  const KEEP: Table := Table([0], {3}, [Entry(4, 0), Entry(3, 1), Entry(2, 2), Entry(1, 3)])
  const SWAP: Table := Table([1], {0}, [Entry(4, 1), Entry(3, 2), Entry(2, 3), Entry(1, 0)])

  function AlternatingTable(commits: seq<BlockRef>): (seq<nat>, Table) {
    if commits == [] then ([], DEFAULT)
    else if commits[|commits| - 1].author == 0 then (SWAP_SCORES, SWAP) else (KEEP_SCORES, KEEP)
  }

  function SuccessionTable(commits: seq<BlockRef>): (seq<nat>, Table) {
    if commits == [] then ([], DEFAULT) else (SWAP_SCORES, SWAP)
  }

  /** With four equal stakes a table has one good and one bad node: the ends of the ranking. */
  lemma EndsOfFour(scores: seq<nat>, r: seq<Entry>)
    requires |scores| == 4 && Ranked(scores, r)
    ensures IsTable(Four().committee, THRESHOLD, scores, Table([r[0].authority], {r[3].authority}, r))
  {
    var c, t := Four().committee, Table([r[0].authority], {r[3].authority}, r);
    var v := Reversed(r);
    FourWellFormed();
    assert Cutoff(c, THRESHOLD) == 1;
    OneOfFour(r);
    OneOfFour(v);
    assert Authorities(v[..1]) == {r[3].authority} by { assert v[..1][0] == r[3]; }
    assert Ends(c, 1, t, 1);
  }

  lemma OneOfFour(order: seq<Entry>)
    requires |order| == 4 && forall i :: 0 <= i < 4 ==> order[i].authority < 4
    ensures StopsAt(Four().committee, 1, order, 1)
  {
    assert order[..1][..0] == [] && order[..2][..1] == order[..1];
    assert StakeSum(Four().committee, order[..1]) == 1;
    assert StakeSum(Four().committee, order[..2]) == 2;
  }

  lemma KeepIsRanked()
    ensures Ranked(KEEP_SCORES, KEEP.ranking)
  {
    var r, scores := KEEP.ranking, KEEP_SCORES;
    assert r[0] == Entry(4, 0) && r[1] == Entry(3, 1) && r[2] == Entry(2, 2) && r[3] == Entry(1, 3);
    assert forall i :: 0 <= i < 4 ==> r[i].authority == i && r[i].value == 4 - i && scores[i] == 4 - i;
  }

  lemma SwapIsRanked()
    ensures Ranked(SWAP_SCORES, SWAP.ranking)
  {
    var r, scores := SWAP.ranking, SWAP_SCORES;
    assert r[0] == Entry(4, 1) && r[1] == Entry(3, 2) && r[2] == Entry(2, 3) && r[3] == Entry(1, 0);
    assert forall i :: 0 <= i < 4 ==> r[i].authority == (if i == 3 then 0 else i + 1) && r[i].value == 4 - i;
    assert scores[0] == 1 && scores[1] == 4 && scores[2] == 3 && scores[3] == 2;
  }

  /** Both schedules are what elections with proper swap tables give. */
  lemma SwapTablesGiveSchedules(commits: seq<BlockRef>, round: nat, pick: nat)
    ensures var (scores, t) := AlternatingTable(commits);
            IsTable(Four().committee, THRESHOLD, scores, t) && Alternating(commits)(round) == Elected(t, 0, pick)
    ensures var (scores, t) := SuccessionTable(commits);
            IsTable(Four().committee, THRESHOLD, scores, t) && Succession(commits)(round) == Elected(t, 0, pick)
  {
    hide IsTable;
    NoTable();
    KeepIsRanked();
    SwapIsRanked();
    EndsOfFour(KEEP_SCORES, KEEP.ranking);
    EndsOfFour(SWAP_SCORES, SWAP.ranking);
    assert pick % 1 == 0;
  }

  lemma NoTable()
    ensures IsTable(Four().committee, THRESHOLD, [], DEFAULT)
  {
  }
}
