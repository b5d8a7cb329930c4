/** Authorities ranked by a value: their votes, or their scores. */
module Ranking {
  import opened StableSort

  datatype Entry = Entry(value: nat, authority: nat)

  function Descending(e: Entry): int { 0 - e.value }

  ghost function Authorities(entries: seq<Entry>): set<nat> {
    set i | 0 <= i < |entries| :: entries[i].authority
  }

  /** Every authority appears once, with its value, in descending order. */
  ghost predicate Ranked(values: seq<nat>, sorted: seq<Entry>) {
    && |sorted| == |values|
    && (forall i :: 0 <= i < |sorted| ==> sorted[i].authority < |values| && sorted[i].value == values[sorted[i].authority])
    && (forall i, j :: 0 <= i < j < |sorted| ==> sorted[i].authority != sorted[j].authority && sorted[i].value >= sorted[j].value)
    && (forall a :: 0 <= a < |values| ==> Entry(values[a], a) in sorted)
  }

  lemma RankedBySort(values: seq<nat>, entries: seq<Entry>, sorted: seq<Entry>)
    requires |entries| == |values| && forall i :: 0 <= i < |entries| ==> entries[i] == Entry(values[i], i)
    requires multiset(sorted) == multiset(entries) && SortedBy(sorted, Descending)
    ensures Ranked(values, sorted)
  {
    SameLength(sorted, entries);
    forall i | 0 <= i < |sorted| ensures sorted[i] in entries { assert sorted[i] in multiset(sorted); }
    forall a | 0 <= a < |values| ensures Entry(values[a], a) in sorted {
      assert entries[a] in multiset(entries);
    }
    forall i, j | 0 <= i < j < |sorted|
      ensures sorted[i].authority != sorted[j].authority && sorted[i].value >= sorted[j].value
    {
      assert Descending(sorted[i]) <= Descending(sorted[j]);
      if sorted[i].authority == sorted[j].authority {
        assert sorted[i] in entries && sorted[j] in entries;
        TwiceInSeq(sorted, i, j);
        OnceInEntries(values, entries, sorted[i].authority);
      }
    }
  }

  lemma SameLength<T>(xs: seq<T>, ys: seq<T>)
    requires multiset(xs) == multiset(ys)
    ensures |xs| == |ys|
  {
    assert |multiset(xs)| == |xs| && |multiset(ys)| == |ys|;
  }

  lemma TwiceInSeq<T>(xs: seq<T>, i: nat, j: nat)
    requires i < j < |xs| && xs[i] == xs[j]
    ensures multiset(xs)[xs[i]] >= 2
  {
    assert xs == xs[..i] + [xs[i]] + xs[i + 1..j] + [xs[j]] + xs[j + 1..];
  }

  lemma {:induction false} OnceInEntries(values: seq<nat>, entries: seq<Entry>, a: nat)
    requires |entries| <= |values| && a < |values|
    requires forall i :: 0 <= i < |entries| ==> entries[i] == Entry(values[i], i)
    ensures multiset(entries)[Entry(values[a], a)] <= 1
    decreases |entries|
  {
    if entries != [] {
      var n := |entries| - 1;
      assert entries == entries[..n] + [entries[n]];
      OnceInEntries(values, entries[..n], a);
      if a == n {
        assert Entry(values[a], a) !in entries[..n];
      }
    }
  }

  lemma PrefixAuthorities(entries: seq<Entry>, i: nat)
    requires i < |entries| && forall j, k :: 0 <= j < k < |entries| ==> entries[j].authority != entries[k].authority
    ensures Authorities(entries[..i + 1]) == Authorities(entries[..i]) + {entries[i].authority}
    ensures entries[i].authority !in Authorities(entries[..i])
  {
    forall a | a in Authorities(entries[..i + 1]) ensures a in Authorities(entries[..i]) + {entries[i].authority} {
      var j :| 0 <= j <= i && entries[..i + 1][j].authority == a;
      if j < i { assert entries[..i][j].authority == a; }
    }
    forall a | a in Authorities(entries[..i]) ensures a in Authorities(entries[..i + 1]) {
      var j :| 0 <= j < i && entries[..i][j].authority == a;
      assert entries[..i + 1][j].authority == a;
    }
    assert entries[..i + 1][i].authority == entries[i].authority;
  }
}
