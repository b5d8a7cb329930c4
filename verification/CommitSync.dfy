/** The scheduler of commit synchronization: commit ranges wait, are being fetched, are fetched and
    are handed to Core in order. Replies may cover only a first part of the requested range, and
    the local commit index may advance at any time. */
module CommitSync {
  import opened Blocks
  import opened Orders

  /** Commit indices start to end, both inclusive. */
  datatype Range = Range(start: nat, end: nat) {
    predicate Has(k: nat) { start <= k <= end }
    predicate Ok() { 1 <= start <= end }
    predicate Apart(other: Range) { end < other.start || other.end < start }

    /** The order of a sorted set of ranges. */
    predicate Leq(other: Range) { start < other.start || (start == other.start && end <= other.end) }
  }

  /** The blocks fetched for a range. */
  type Payload = seq<nat>

  /** Blocks sent to Core, with the index that was synced just before. */
  datatype Batch = Batch(range: Range, blocks: Payload, synced: nat)

  lemma LeastRange(s: set<Range>)
    requires s != {}
    ensures exists r :: r in s && forall x :: x in s ==> r.Leq(x)
  {
    var leq := (r: Range, x: Range) => r.Leq(x);
    var r := Least(s, leq);
    assert forall x :: x in s ==> leq(r, x);
  }

  /** Ranges are well formed, do not overlap and lie at or below the highest scheduled index. */
  ghost predicate Tidy(ranges: set<Range>, highest: nat) {
    && (forall r :: r in ranges ==> r.Ok() && r.end <= highest)
    && (forall r, s :: r in ranges && s in ranges && r != s ==> r.Apart(s))
  }

  ghost predicate Covered(ranges: set<Range>, k: nat) {
    exists r :: r in ranges && r.Has(k)
  }

  /** Nothing that was ever scheduled is forgotten: it is synced or lies in one of the ranges. */
  ghost predicate Conserved(ranges: set<Range>, highest: nat, synced: nat) {
    forall k :: 1 <= k <= highest ==> k <= synced || Covered(ranges, k)
  }

  /** Every batch closed up with what was synced when it was sent and went beyond it; batches do
      not overlap each other or anything still scheduled. */
  ghost predicate SentInOrder(sent: seq<Batch>, ranges: set<Range>, highest: nat, synced: nat) {
    && (forall i :: 0 <= i < |sent| ==>
          && sent[i].range.start <= sent[i].synced + 1 && sent[i].synced < sent[i].range.end <= synced
          && sent[i].range.end <= highest)
    && (forall i, j :: 0 <= i < j < |sent| ==> sent[i].range.Apart(sent[j].range) && sent[i].range.end <= sent[j].synced)
    && (forall i, r :: 0 <= i < |sent| && r in ranges ==> sent[i].range.Apart(r))
  }

  ghost predicate Books(ranges: set<Range>, highest: nat, synced: nat, sent: seq<Batch>) {
    Tidy(ranges, highest) && Conserved(ranges, highest, synced) && SentInOrder(sent, ranges, highest, synced)
  }

  /** A new range on top of everything scheduled or synced. */
  lemma ScheduleKeeps(ranges: set<Range>, highest: nat, synced: nat, sent: seq<Batch>, range: Range)
    requires Books(ranges, highest, synced, sent)
    requires range.start == Max(synced, highest) + 1 && range.Ok()
    ensures range !in ranges && Books(ranges + {range}, range.end, synced, sent)
  {
    var ranges' := ranges + {range};
    forall k | 1 <= k <= range.end && k > synced ensures Covered(ranges', k) {
      if k <= highest {
        assert Covered(ranges, k);
        var r :| r in ranges && r.Has(k);
        assert r in ranges';
      } else {
        assert range.Has(k) && range in ranges';
      }
    }
  }

  /** A reply replaces a range by its fetched part, unless already synced, and the part still to
      be fetched. */
  ghost function Split(ranges: set<Range>, range: Range, commitEnd: nat, synced: nat): set<Range> {
    ranges - {range}
    + (if commitEnd < range.end then {Range(commitEnd + 1, range.end)} else {})
    + (if synced < commitEnd then {Range(range.start, commitEnd)} else {})
  }

  lemma SplitRanges(pending: set<Range>, inflight: set<Range>, fetched: set<Range>, range: Range, commitEnd: nat, synced: nat)
    requires pending !! inflight && pending !! fetched && inflight !! fetched && range in inflight
    ensures (pending + if commitEnd < range.end then {Range(commitEnd + 1, range.end)} else {})
            + (inflight - {range})
            + (fetched + if synced < commitEnd then {Range(range.start, commitEnd)} else {})
         == Split(pending + inflight + fetched, range, commitEnd, synced)
  {
  }

  lemma SplitKeeps(ranges: set<Range>, highest: nat, synced: nat, synced': nat, sent: seq<Batch>, range: Range, commitEnd: nat)
    requires Books(ranges, highest, synced, sent) && synced <= synced'
    requires range in ranges && range.start <= commitEnd <= range.end
    ensures Books(Split(ranges, range, commitEnd, synced'), highest, synced', sent)
    ensures Range(range.start, commitEnd) !in ranges - {range}
    ensures commitEnd < range.end ==> Range(commitEnd + 1, range.end) !in ranges
  {
    var got, rest := Range(range.start, commitEnd), Range(commitEnd + 1, range.end);
    var ranges' := Split(ranges, range, commitEnd, synced');
    assert range.Ok();
    forall r | r in ranges && r != range ensures r.Apart(range) && r.Ok() {
    }
    forall k | 1 <= k <= highest && k > synced' ensures Covered(ranges', k) {
      assert Covered(ranges, k);
      var r :| r in ranges && r.Has(k);
      if r != range {
        assert r in ranges';
      } else if k <= commitEnd {
        assert got in ranges' && got.Has(k);
      } else {
        assert rest in ranges' && rest.Has(k);
      }
    }
    forall r, s | r in ranges' && s in ranges' && r != s ensures r.Apart(s) {
      if r in ranges && r != range && s in ranges && s != range { assert r.Apart(s); }
    }
    forall i, r | 0 <= i < |sent| && r in ranges' ensures sent[i].range.Apart(r) {
      assert sent[i].range.Apart(range);
    }
  }

  /** The first fetched range closes up with what is synced and is sent. */
  lemma SendKeeps(ranges: set<Range>, highest: nat, synced: nat, sent: seq<Batch>, local: nat, b: Batch)
    requires Books(ranges, highest, synced, sent) && SyncedWasSent(sent, local, synced)
    requires b.range in ranges && b.synced == synced && b.range.start <= synced + 1 && b.range.end > synced
    ensures Books(ranges - {b.range}, highest, b.range.end, sent + [b]) && SyncedWasSent(sent + [b], local, b.range.end)
  {
    var ranges', sent' := ranges - {b.range}, sent + [b];
    forall k | 1 <= k <= highest && k > b.range.end ensures Covered(ranges', k) {
      assert Covered(ranges, k);
      var r :| r in ranges && r.Has(k);
      assert r in ranges';
    }
    forall k | local < k <= b.range.end ensures WasSent(sent', k) {
      if k <= synced {
        assert WasSent(sent, k);
        var i :| 0 <= i < |sent| && sent[i].range.Has(k);
        assert sent'[i] == sent[i];
      } else {
        assert sent'[|sent|].range.Has(k);
      }
    }
    forall i, j | 0 <= i < j < |sent'|
      ensures sent'[i].range.Apart(sent'[j].range) && sent'[i].range.end <= sent'[j].synced
    {
      assert sent'[i] == sent[i];
      if j < |sent| { assert sent'[j] == sent[j]; }
    }
  }

  /** A fetched range that is synced by now is dropped. */
  lemma DropKeeps(ranges: set<Range>, highest: nat, synced: nat, sent: seq<Batch>, range: Range)
    requires Books(ranges, highest, synced, sent) && range in ranges && range.end <= synced
    ensures Books(ranges - {range}, highest, synced, sent)
  {
    forall k | 1 <= k <= highest && k > synced ensures Covered(ranges - {range}, k) {
      assert Covered(ranges, k);
      var r :| r in ranges && r.Has(k);
      assert r in ranges - {range};
    }
  }

  /** Every synced index was committed locally or sent to Core. */
  ghost predicate SyncedWasSent(sent: seq<Batch>, local: nat, synced: nat) {
    forall k :: local < k <= synced ==> WasSent(sent, k)
  }

  ghost predicate WasSent(sent: seq<Batch>, k: nat) {
    exists i :: 0 <= i < |sent| && sent[i].range.Has(k)
  }

  /** The local commit index is taken over when it is ahead. */
  lemma AdvanceKeeps(ranges: set<Range>, highest: nat, synced: nat, sent: seq<Batch>, local: nat, index: nat)
    requires Books(ranges, highest, synced, sent) && SyncedWasSent(sent, local, synced) && local <= synced
    ensures Books(ranges, highest, Max(synced, index), sent) && SyncedWasSent(sent, Max(local, index), Max(synced, index))
  {
  }

  class CommitSyncer {
    const batchSize: nat
    var pending: set<Range>
    var inflight: set<Range>
    var fetched: map<Range, Payload>
    var highest: nat      // highest scheduled index, 0 when nothing was scheduled
    var synced: nat
    var sent: seq<Batch>  // what was handed to Core, in order
    ghost var local: nat  // highest local commit index seen

    ghost function Ranges(): set<Range>
      reads this
    {
      pending + inflight + fetched.Keys
    }

    ghost predicate Valid()
      reads this
    {
      && batchSize > 0
      && pending !! inflight && pending !! fetched.Keys && inflight !! fetched.Keys
      && Books(Ranges(), highest, synced, sent)
      && SyncedWasSent(sent, local, synced) && local <= synced
    }

    constructor (batchSize: nat, localIndex: nat)
      requires batchSize > 0
      ensures Valid() && synced == localIndex && sent == [] && Ranges() == {}
    {
      this.batchSize := batchSize;
      pending, inflight, fetched, highest := {}, {}, map[], 0;
      synced, local, sent := localIndex, localIndex, [];
    }

    /** Schedules full batches up to the quorum commit index. */
    method OnTick(quorumIndex: nat, localIndex: nat)
      requires Valid()
      modifies this`pending, this`highest, this`synced, this`local
      ensures Valid() && old(synced) <= synced && synced == Max(old(synced), localIndex)
      ensures old(pending) <= pending && old(highest) <= highest
      ensures forall r :: r in pending - old(pending) ==> r.end == r.start + batchSize - 1 && r.end <= quorumIndex
      ensures Max(synced, highest) + batchSize > quorumIndex
    {
      hide Books;
      hide SyncedWasSent;
      AdvanceKeeps(Ranges(), highest, synced, sent, local, localIndex);
      local := Max(local, localIndex);
      synced := Max(synced, localIndex);
      var prevEnd := Max(synced, highest);
      ghost var floor := prevEnd;
      while prevEnd <= quorumIndex
        invariant Valid() && old(pending) <= pending && old(highest) <= highest
        invariant synced == Max(old(synced), localIndex)
        invariant prevEnd == Max(synced, highest) && prevEnd >= floor
        invariant forall r :: r in pending - old(pending) ==> r.end == r.start + batchSize - 1 && r.end <= quorumIndex
        decreases quorumIndex + 1 - prevEnd
      {
        var range := Range(prevEnd + 1, prevEnd + batchSize);
        if range.end > quorumIndex { break; }
        ScheduleKeeps(Ranges(), highest, synced, sent, range);
        ghost var before := Ranges();
        pending := pending + {range};
        assert Ranges() == before + {range};
        highest := range.end;
        prevEnd := prevEnd + batchSize;
      }
    }

    /** Records a reply: its first part as fetched unless it is synced by now, the rest as pending. */
    method Receive(range: Range, commitEnd: nat, blocks: Payload, localIndex: nat)
      requires Valid() && range in inflight && range.start <= commitEnd <= range.end
      modifies this`pending, this`inflight, this`fetched, this`synced, this`local
      ensures Valid() && synced == Max(old(synced), localIndex)
      ensures inflight == old(inflight) - {range}
      ensures pending == old(pending) + if commitEnd < range.end then {Range(commitEnd + 1, range.end)} else {}
      ensures fetched == if synced < commitEnd then old(fetched)[Range(range.start, commitEnd) := blocks] else old(fetched)
      ensures Range(range.start, commitEnd) !in old(fetched)
    {
      hide Books;
      hide SyncedWasSent;
      hide Split;
      AdvanceKeeps(Ranges(), highest, synced, sent, local, localIndex);
      SplitKeeps(Ranges(), highest, synced, Max(synced, localIndex), sent, range, commitEnd);
      SplitRanges(pending, inflight, fetched.Keys, range, commitEnd, Max(synced, localIndex));
      inflight := inflight - {range};
      if commitEnd < range.end { pending := pending + {Range(commitEnd + 1, range.end)}; }
      local := Max(local, localIndex);
      synced := Max(synced, localIndex);
      if synced < commitEnd { fetched := fetched[Range(range.start, commitEnd) := blocks]; }
      assert fetched.Keys == old(fetched.Keys) + if synced < commitEnd then {Range(range.start, commitEnd)} else {};
      assert pending == old(pending) + if commitEnd < range.end then {Range(commitEnd + 1, range.end)} else {};
      assert Ranges() == Split(old(Ranges()), range, commitEnd, synced);
    }

    /** Takes the lowest fetched range off the map and sends it unless it is synced by now. */
    method SendFirst(first: Range)
      requires Valid() && first in fetched && first.start <= synced + 1
      modifies this`fetched, this`synced, this`sent
      ensures Valid() && fetched == old(fetched) - {first}
      ensures synced == Max(old(synced), first.end)
      ensures sent == if first.end > old(synced) then old(sent) + [Batch(first, old(fetched)[first], old(synced))] else old(sent)
    {
      hide Books;
      hide SyncedWasSent;
      ghost var before := Ranges();
      var payload := fetched[first];
      fetched := fetched - {first};
      assert Ranges() == before - {first};
      if first.end <= synced {
        DropKeeps(before, highest, synced, sent, first);
        return;
      }
      SendKeeps(before, highest, synced, sent, local, Batch(first, payload, synced));
      sent := sent + [Batch(first, payload, synced)];
      synced := Max(synced, first.end);
    }

    /** Sends everything that closes up with what is synced, lowest first. */
    method Drain()
      requires Valid()
      modifies this`fetched, this`synced, this`sent
      ensures Valid() && old(synced) <= synced && old(sent) <= sent
      ensures forall r :: r in fetched ==> r.start > synced + 1
      ensures KeepsPayloads(old(fetched), fetched) && SendsPayloads(old(fetched), sent[|old(sent)|..])
    {
      hide Valid;
      hide SendsPayloads;
      SendsNothing(fetched, sent);
      while fetched != map[]
        invariant Valid() && old(synced) <= synced && old(sent) <= sent
        invariant KeepsPayloads(old(fetched), fetched) && SendsPayloads(old(fetched), sent[|old(sent)|..])
        decreases |fetched|
      {
        LeastRange(fetched.Keys);
        var first :| first in fetched.Keys && forall x :: x in fetched.Keys ==> first.Leq(x);
        if first.start > synced + 1 { break; }
        SendsOneMore(old(fetched), old(sent), sent, Batch(first, fetched[first], synced));
        SendFirst(first);
      }
    }

    /** A fetch returned the commits from the start of its range up to `commitEnd`. */
    method OnFetched(range: Range, commitEnd: nat, blocks: Payload, localIndex: nat)
      requires Valid() && range in inflight && range.start <= commitEnd <= range.end
      modifies this`pending, this`inflight, this`fetched, this`synced, this`sent, this`local
      ensures Valid() && Max(old(synced), localIndex) <= synced && old(sent) <= sent
      ensures inflight == old(inflight) - {range}
      ensures pending == old(pending) + if commitEnd < range.end then {Range(commitEnd + 1, range.end)} else {}
      ensures forall r :: r in fetched ==> r.start > synced + 1
      ensures var all := old(fetched)[Range(range.start, commitEnd) := blocks];
              KeepsPayloads(all, fetched) && SendsPayloads(all, sent[|old(sent)|..])
    {
      hide Valid;
      Receive(range, commitEnd, blocks, localIndex);
      ghost var some, all := fetched, old(fetched)[Range(range.start, commitEnd) := blocks];
      assert KeepsPayloads(all, some);
      Drain();
      forall b | b in sent[|old(sent)|..] ensures Carries(all, b) {
        assert Carries(some, b);
      }
    }

    /** Starts the fetch of one pending range. */
    method Start(first: Range)
      requires Valid() && first in pending
      modifies this`pending, this`inflight
      ensures Valid() && pending == old(pending) - {first} && inflight == old(inflight) + {first}
      ensures first !in old(inflight)
    {
      hide Books;
      hide SyncedWasSent;
      pending := pending - {first};
      inflight := inflight + {first};
      assert Ranges() == old(Ranges());
    }

    /** Starts fetches, lowest ranges first, up to the allowed parallelism. */
    method StartFetches(parallelFetches: nat, committeeSize: nat, batchesAhead: nat)
      requires Valid()
      modifies this`pending, this`inflight
      ensures Valid()
      ensures old(inflight) <= inflight && pending + inflight == old(pending) + old(inflight)
      ensures pending == {} || |inflight| >= Parallelism(parallelFetches, committeeSize, batchesAhead, |fetched|)
      ensures |inflight| <= Max(|old(inflight)|, Parallelism(parallelFetches, committeeSize, batchesAhead, |fetched|))
      ensures pending != {} ==>
                && inflight != {}
                && (|inflight| >= parallelFetches || 3 * (|inflight| + 1) > 2 * committeeSize || |inflight| + |fetched| >= batchesAhead)
      ensures inflight == old(inflight) || |inflight| == 1
              || (|inflight| <= parallelFetches && 3 * |inflight| <= 2 * committeeSize && |inflight| + |fetched| <= batchesAhead)
      ensures forall r, s :: r in inflight - old(inflight) && s in pending ==> r.start <= s.start
    {
      hide Valid;
      hide Parallelism;
      var target := Parallelism(parallelFetches, committeeSize, batchesAhead, |fetched|);
      while |inflight| < target && pending != {}
        invariant Valid()
        invariant old(inflight) <= inflight && pending + inflight == old(pending) + old(inflight)
        invariant |inflight| <= Max(|old(inflight)|, target) && (inflight == old(inflight) || 0 < |inflight| <= target)
        invariant forall r, s :: r in inflight - old(inflight) && s in pending ==> r.Leq(s)
        decreases |pending|
      {
        LeastRange(pending);
        var first :| first in pending && forall x :: x in pending ==> first.Leq(x);
        Start(first);
      }
      ParallelismExactly(parallelFetches, committeeSize, batchesAhead, |fetched|, |inflight|);
      ParallelismExactly(parallelFetches, committeeSize, batchesAhead, |fetched|, |inflight| + 1);
    }
  }

  lemma SentAscends(sent: seq<Batch>, ranges: set<Range>, highest: nat, synced: nat, i: nat, j: nat)
    requires SentInOrder(sent, ranges, highest, synced) && i < j < |sent|
    ensures sent[i].range.end < sent[j].range.start
  {
    assert sent[i].range.Apart(sent[j].range);
  }

  /** In every reachable state the batches sent ascend without overlap, and every synced index that
      was not committed locally went to Core in exactly one batch. */
  lemma SentExactlyOnce(c: CommitSyncer, k: nat)
    requires c.Valid() && c.local < k <= c.synced
    ensures exists i :: 0 <= i < |c.sent| && c.sent[i].range.Has(k)
                        && forall j :: 0 <= j < |c.sent| && c.sent[j].range.Has(k) ==> j == i
    ensures forall i, j :: 0 <= i < j < |c.sent| ==> c.sent[i].range.end < c.sent[j].range.start
  {
    hide SentInOrder;
    hide Tidy;
    hide Conserved;
    forall i, j | 0 <= i < j < |c.sent| ensures c.sent[i].range.end < c.sent[j].range.start {
      SentAscends(c.sent, c.Ranges(), c.highest, c.synced, i, j);
    }
    assert WasSent(c.sent, k);
  }

  ghost predicate KeepsPayloads(all: map<Range, Payload>, some: map<Range, Payload>) {
    forall r :: r in some ==> r in all && some[r] == all[r]
  }

  /** The batch consists of the blocks fetched for its range. */
  ghost predicate Carries(all: map<Range, Payload>, b: Batch) {
    b.range in all && b.blocks == all[b.range]
  }

  ghost predicate SendsPayloads(all: map<Range, Payload>, batches: seq<Batch>) {
    forall b :: b in batches ==> Carries(all, b)
  }

  lemma SendsNothing(all: map<Range, Payload>, sent: seq<Batch>)
    ensures SendsPayloads(all, sent[|sent|..])
  {
  }

  lemma SendsOneMore(all: map<Range, Payload>, before: seq<Batch>, sent: seq<Batch>, b: Batch)
    requires before <= sent && SendsPayloads(all, sent[|before|..]) && Carries(all, b)
    ensures SendsPayloads(all, (sent + [b])[|before|..])
  {
    assert (sent + [b])[|before|..] == sent[|before|..] + [b];
  }

  function Min(a: nat, b: nat): nat { if a < b then a else b }

  /** How many fetches may run at once; at least one. */
  function Parallelism(parallelFetches: nat, committeeSize: nat, batchesAhead: nat, fetched: nat): nat {
    Max(1, Min(Min(parallelFetches, committeeSize * 2 / 3), if batchesAhead < fetched then 0 else batchesAhead - fetched))
  }

  /** One fetch may always run; more only within all three limits. */
  lemma ParallelismExactly(parallelFetches: nat, committeeSize: nat, batchesAhead: nat, fetched: nat, n: nat)
    ensures n <= Parallelism(parallelFetches, committeeSize, batchesAhead, fetched) <==>
              n <= 1 || (n <= parallelFetches && 3 * n <= 2 * committeeSize && n + fetched <= batchesAhead)
  {
  }
}
