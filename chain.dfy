/** The chain ledger (package block.go): an append-only sequence of blocks
    that starts with the genesis block. */
module Chain {
  import opened Bytes
  import opened Blocks
  import opened Merkle
  import opened Pow
  import opened BlockFactory

  /** The ledger invariant on a sequence of blocks: genesis first, every
      block mined, each block linked to its predecessor's hash, heights
      counting up from 0. */
  ghost predicate WellFormedChain(bs: seq<Block>)
    reads bs
  {
    && |bs| >= 1
    && bs[0].Height == 0 && bs[0].PrevBlockHash == []
    && (forall i {:trigger Mined(bs[i])} :: 0 <= i < |bs| ==> Mined(bs[i]))
    && (forall i :: 0 < i < |bs| ==> bs[i].PrevBlockHash == bs[i - 1].Hash)
    && (forall i :: 0 <= i < |bs| ==> bs[i].Height == i)
  }

  /** Appending a mined block at the next height, linked to the tip's hash,
      keeps the ledger invariant. */
  lemma AppendKeepsChain(bs: seq<Block>, b: Block)
    requires WellFormedChain(bs)
    requires Mined(b) && b.Height == |bs| && b.PrevBlockHash == bs[|bs| - 1].Hash
    ensures WellFormedChain(bs + [b])
  {
    var chain := bs + [b];
    forall i | 0 <= i < |chain|
      ensures Mined(chain[i]) && chain[i].Height == i
    {
      if i < |bs| {
        assert chain[i] == bs[i];
      }
    }
    forall i | 0 < i < |chain|
      ensures chain[i].PrevBlockHash == chain[i - 1].Hash
    {
      assert chain[i - 1] == if i - 1 < |bs| then bs[i - 1] else b;
    }
  }

  class Blockchain {
    var blocks: seq<Block>

    /** The stored blocks form a well-formed ledger. */
    ghost predicate Valid()
      reads this, blocks
    {
      WellFormedChain(blocks)
    }

    /** NewBlockchain: a ledger holding only the genesis block. */
    constructor (timestamp: int64)
      requires GenesisMineable(timestamp)
      ensures Valid()
      ensures |blocks| == 1 && fresh(blocks[0]) && blocks[0].Timestamp == timestamp
      ensures blocks[0].Transactions == [GenesisTransaction]
      ensures blocks[0].MerkleRootHash == Sha256(StringBytes("Genesis Block"))
    {
      var genesis := NewGenesisBlock(timestamp);
      blocks := [genesis];
    }

    /** AddBlock: mine a block on top of the tip, at the tip's height plus one,
        and append it. Indexing the tip needs a non-empty chain. */
    method AddBlock(transactions: seq<Transaction>, timestamp: int64)
      requires Valid()
      requires Mineable(blocks[|blocks| - 1].Hash, MerkleRoot(transactions), timestamp)
      modifies this
      ensures Valid()
      ensures |blocks| == |old(blocks)| + 1
      ensures blocks[..|old(blocks)|] == old(blocks)
      ensures var b := blocks[|blocks| - 1];
        && fresh(b)
        && b.PrevBlockHash == old(blocks[|blocks| - 1].Hash)
        && b.Height == old(blocks[|blocks| - 1].Height) + 1
        && b.Transactions == transactions && b.Timestamp == timestamp
    {
      var prevBlock := blocks[|blocks| - 1];
      var newBlock := NewBlock(transactions, prevBlock.Hash, prevBlock.Height + 1, timestamp);
      // Mining allocates and fills in only the new block: the old ones are untouched.
      AppendKeepsChain(blocks, newBlock);
      blocks := blocks + [newBlock];
    }

    /** Blocks: the stored sequence itself, in height order. The source's
        comment calls it a copy; it is the same block references. */
    function Blocks(): (r: seq<Block>)
      reads this, blocks
      ensures r == blocks
      ensures Valid() ==> |r| >= 1 && forall i :: 0 <= i < |r| ==> r[i].Height == i
    {
      blocks
    }
  }

  /** A ledger built by any number of appends keeps every block after the
      genesis block linked to its predecessor, and every hash sealed. */
  lemma ValidChainIsLinked(bc: Blockchain, i: int)
    requires bc.Valid() && 0 <= i < |bc.blocks|
    ensures i > 0 ==> bc.blocks[i].PrevBlockHash == bc.blocks[i - 1].Hash
    ensures |bc.blocks[i].Hash| == 32 && bc.blocks[i].Hash[0] == 0 && bc.blocks[i].Hash[1] == 0
  {
    MinedHashShape(bc.blocks[i]);
  }
}
