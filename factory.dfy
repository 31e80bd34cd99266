/** The block factory (package block_factgory.go): fill in a block, mine it,
    store the nonce and hash, and check the result. */
module BlockFactory {
  import opened Bytes
  import opened Blocks
  import opened Merkle
  import opened Pow

  const Version: int := 1
  const Reward: int := 50

  /** The seed transaction of NewGenesisBlock. */
  const GenesisTransaction: Transaction := Transaction("genesis", "satoshi", 100, "Genesis Block")

  /** What NewBlock leaves in a block: the header fields it fixes, and the
      first nonce that seals the header, with its digest as the block hash. */
  ghost predicate Mined(b: Block)
    reads b
  {
    && b.MerkleRootHash == MerkleRoot(b.Transactions)
    && b.Bits == TargetBits && b.Version == Version && b.Reward == Reward
    && b.Nonce >= 0
    && b.Hash == Sha256(PrepareData(b.PrevBlockHash, b.MerkleRootHash, b.Timestamp, b.Nonce))
    && BelowTarget(b.Hash)
    && forall m :: 0 <= m < b.Nonce ==> !Meets(b.PrevBlockHash, b.MerkleRootHash, b.Timestamp, m)
  }

  /** The hash of a mined block is 32 bytes and starts with 16 zero bits. */
  lemma MinedHashShape(b: Block)
    requires Mined(b)
    ensures |b.Hash| == 32 && b.Hash[0] == 0 && b.Hash[1] == 0
  {
    BelowTargetIffLeadingZeros(b.Hash);
  }

  /** NewBlock: Timestamp is the clock reading, passed in. The search needs a
      nonce that seals the header to exist; otherwise it never returns. */
  method NewBlock(transactions: seq<Transaction>, prevHash: seq<byte>, height: int, timestamp: int64)
    returns (block: Block)
    requires Mineable(prevHash, MerkleRoot(transactions), timestamp)
    ensures fresh(block)
    ensures block.Height == height && block.Timestamp == timestamp
    ensures block.PrevBlockHash == prevHash && block.Transactions == transactions
    ensures Mined(block)
  {
    var merkleRoot := CalculateMerkleRoot(transactions);
    block := new Block(height, timestamp, prevHash, merkleRoot, TargetBits, Version, Reward, transactions);
    var pow := new ProofOfWork(block);
    var nonce, hash := pow.Run();
    block.Nonce := nonce;
    block.Hash := hash;
    // pow sees the stored nonce through its reference to the block, so the
    // check reports VALID: its INVALID branch cannot be taken.
    var valid := pow.Validate();
    MinedValidates(pow);
    assert valid;
  }

  /** Validate reports VALID for every mined block: whoever holds the
      proof-of-work context of a block NewBlock returned sees the check pass. */
  lemma MinedValidates(p: ProofOfWork)
    requires Mined(p.block)
    ensures p.Validate()
  {
    MinedHashShape(p.block);
  }

  /** Genesis material can be sealed at this clock reading. */
  ghost predicate GenesisMineable(timestamp: int64) {
    Mineable([], MerkleRoot([GenesisTransaction]), timestamp)
  }

  /** NewGenesisBlock: height 0, no previous hash, the one seed transaction. */
  method NewGenesisBlock(timestamp: int64) returns (block: Block)
    requires GenesisMineable(timestamp)
    ensures fresh(block)
    ensures block.Height == 0 && block.PrevBlockHash == [] && block.Timestamp == timestamp
    ensures block.Transactions == [GenesisTransaction]
    ensures block.MerkleRootHash == Sha256(StringBytes("Genesis Block"))
    ensures Mined(block)
  {
    block := NewBlock([GenesisTransaction], [], 0, timestamp);
    SingleRoot(GenesisTransaction);
  }
}
