/** Consequences for whole runs of the block manager: independence of delivery order, causal
    closure and timestamps. */
module DeliveryOrder {
  import opened Blocks
  import opened Dags
  import opened BlockTracking
  import opened BlockManager

  /** Two managers that were delivered the same blocks, in whatever order and batches, have the
      same DAG; if neither rejected a block, their entire state is the same. */
  lemma SameDeliveriesSameDag(a: BlockManager, b: BlockManager)
    requires a.Valid() && b.Valid()
    requires a.universe == b.universe && a.init == b.init && a.delivered == b.delivered
    ensures a.dag == b.dag
    ensures a.rejected == {} && b.rejected == {} ==>
              a.suspended == b.suspended && a.missingAncestors == b.missingAncestors && a.missingBlocks == b.missingBlocks
  {
    forall r ensures r in a.dag <==> r in b.dag {
      DagIsComplete(a.universe, a.init, a.dag, a.suspended, a.missingAncestors, a.missingBlocks, a.rejected, a.delivered, r);
      DagIsComplete(b.universe, b.init, b.dag, b.suspended, b.missingAncestors, b.missingBlocks, b.rejected, b.delivered, r);
    }
    forall r | r in a.dag ensures a.dag[r] == b.dag[r] {
      assert AcceptedEntry(a.universe, a.dag, r) && AcceptedEntry(b.universe, b.dag, r);
    }
    assert a.dag == b.dag;
    if a.rejected == {} && b.rejected == {} {
      StateIsDetermined(a.universe, a.init, a.delivered, a.dag, a.suspended, a.missingAncestors, a.missingBlocks,
                        b.dag, b.suspended, b.missingAncestors, b.missingBlocks);
    }
  }

  /** A causal path of the universe: every block references the next one. */
  ghost predicate IsPath(u: Dag, path: seq<BlockRef>) {
    forall i :: 0 <= i < |path| - 1 ==> path[i] in u && path[i + 1] in Parents(u[path[i]])
  }

  /** The DAG contains the whole causal history of an accepted block, and along every path of it
      timestamps never increase. */
  lemma {:induction false} HistoryIsAccepted(u: Dag, dag: Dag, path: seq<BlockRef>)
    requires AcceptedDag(u, dag) && IsPath(u, path) && |path| > 0 && path[0] in dag
    ensures var last := path[|path| - 1];
            last in dag && dag[last].timestampMs <= dag[path[0]].timestampMs
  {
    if |path| > 1 {
      assert AcceptedEntry(u, dag, path[0]);
      var rest := path[1..];
      assert rest[|rest| - 1] == path[|path| - 1];
      assert path[0] in u && path[0 + 1] in Parents(u[path[0]]);
      forall i | 0 <= i < |rest| - 1 ensures rest[i] in u && rest[i + 1] in Parents(u[rest[i]]) {
        assert rest[i] == path[i + 1] && rest[i + 1] == path[i + 2];
      }
      HistoryIsAccepted(u, dag, rest);
    }
  }
}
