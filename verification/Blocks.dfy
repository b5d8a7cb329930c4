/** Blocks, references and slots of the DAG. Digests are abstract numbers. */
module Blocks {

  function Max(a: nat, b: nat): nat { if a < b then b else a }

  const GENESIS_ROUND: nat := 0

  datatype Option<+T> = None | Some(value: T)

  /** Position of blocks in the DAG; an equivocating authority can fill one slot twice. */
  datatype Slot = Slot(round: nat, authority: nat)

  datatype BlockRef = BlockRef(round: nat, author: nat, digest: nat) {
    function AsSlot(): Slot { Slot(round, author) }
  }

  datatype CommitRef = CommitRef(index: nat, digest: nat)

  /** `payload` stands for the transactions, reports and signature, which are opaque here. */
  datatype Block = Block(epoch: nat, round: nat, author: nat, timestampMs: nat,
                         ancestors: seq<BlockRef>, commitVotes: seq<CommitRef>, payload: nat)
  {
    /** Authors of the ancestors in the round just below the block. */
    function ParentAuthors(): set<nat> { ParentsAmong(|ancestors|) }

    function ParentsAmong(n: nat): set<nat>
      requires n <= |ancestors|
    {
      set i | 0 <= i < n && ancestors[i].round + 1 == round :: ancestors[i].author
    }
  }

  /** The blocks that a block references. */
  function Parents(b: Block): set<BlockRef> {
    set i | 0 <= i < |b.ancestors| :: b.ancestors[i]
  }
}
