/** The single-file prototype (blockchain.go): the same sealing logic with a
    header/body split, JSON-encoded transactions, a nonce search bounded by
    the largest int64, and a header that records Bits 1. Its IntToHex and
    NewProofOfWork threshold are those of the package and are shared with it. */
module Prototype {
  import opened Bytes
  import Merkle
  import Pow

  /** Amount is a float64; it reaches the ledger only through the JSON encoder. */
  datatype Transaction = Transaction(Sender: string, Receiver: string, Amount: real, Timestamp: int64)

  datatype BlockHeader = BlockHeader(
    Version: int, Height: int, PrevBlockHash: seq<byte>, Timestamp: int64,
    MerkleRoot: seq<byte>, Nonce: int, Bits: int, BlockReward: real)

  datatype BlockBody = BlockBody(Transactions: seq<Transaction>)

  /** The constants NewBlock writes into every header. */
  const HeaderVersion: int := 1
  const HeaderBits: int := 1
  const HeaderReward: real := 6.25

  /** json.Marshal of one transaction and of a transaction list: fixed but
      unknown encoders. */
  const TransactionJsonTable: imap<Transaction, seq<byte>>
  const TransactionsJsonTable: imap<seq<Transaction>, seq<byte>>

  function Json(tx: Transaction): seq<byte> {
    if tx in TransactionJsonTable then TransactionJsonTable[tx] else []
  }

  function JsonList(txs: seq<Transaction>): seq<byte> {
    if txs in TransactionsJsonTable then TransactionsJsonTable[txs] else []
  }

  /** The header and hash of a block change after mining; the body does not. */
  class Block {
    var Header: BlockHeader
    var Body: BlockBody
    var Hash: seq<byte>

    constructor (header: BlockHeader, body: BlockBody)
      ensures Header == header && Body == body && Hash == []
    {
      Header := header;
      Body := body;
      Hash := [];
    }
  }

  // -------------------------------------------------------------------
  // Merkle root

  /** The prototype's leaf: the digest of the whole JSON-encoded transaction. */
  function Leaf(tx: Transaction): seq<byte> {
    Sha256(Json(tx))
  }

  function Leaves(txs: seq<Transaction>): seq<seq<byte>> {
    seq(|txs|, i requires 0 <= i < |txs| => Leaf(txs[i]))
  }

  /** The same level-by-level reduction as the package, over JSON leaves. */
  function MerkleRoot(txs: seq<Transaction>): seq<byte> {
    if |txs| == 0 then [] else Merkle.MerkleReduce(Leaves(txs))
  }

  /** No transactions give the empty root; one transaction gives its leaf. */
  lemma RootBaseCases(tx: Transaction)
    ensures MerkleRoot([]) == []
    ensures MerkleRoot([tx]) == Sha256(Json(tx))
  {
  }

  /** Every field of a transaction reaches the root through its encoding:
      transactions with equal encodings in the same order give equal roots. */
  lemma RootDependsOnlyOnEncodings(txs: seq<Transaction>, txs': seq<Transaction>)
    requires |txs| == |txs'|
    requires forall i :: 0 <= i < |txs| ==> Json(txs[i]) == Json(txs'[i])
    ensures MerkleRoot(txs) == MerkleRoot(txs')
  {
    assert Leaves(txs) == Leaves(txs');
  }

  /** calculateMerkleRoot: leaves, then levels of pairs with the odd node
      carried forward, until one node remains. */
  method CalculateMerkleRoot(transactions: seq<Transaction>) returns (root: seq<byte>)
    ensures root == MerkleRoot(transactions)
  {
    if |transactions| == 0 {
      return [];
    }
    var hashes: seq<seq<byte>> := [];
    for j := 0 to |transactions|
      invariant |hashes| == j
      invariant forall k :: 0 <= k < j ==> hashes[k] == Leaf(transactions[k])
    {
      var txBytes := Json(transactions[j]);
      hashes := hashes + [Sha256(txBytes)];
    }
    assert hashes == Leaves(transactions);
    while |hashes| > 1
      invariant |hashes| >= 1
      invariant Merkle.MerkleReduce(hashes) == MerkleRoot(transactions)
      decreases |hashes|
    {
      var newHashes := PairUp(hashes);
      assert Merkle.MerkleReduce(hashes) == Merkle.MerkleReduce(newHashes);
      hashes := newHashes;
    }
    root := hashes[0];
  }

  /** The inner loop of calculateMerkleRoot, which tests for a partner first. */
  method PairUp(hashes: seq<seq<byte>>) returns (newHashes: seq<seq<byte>>)
    ensures newHashes == Merkle.NextLevel(hashes)
  {
    newHashes := [];
    var i := 0;
    while i < |hashes|
      invariant i == 2 * |newHashes| <= |hashes| + 1
      invariant forall k :: 0 <= k < |newHashes| ==> newHashes[k] == Merkle.NextLevel(hashes)[k]
      decreases |hashes| - i
    {
      Merkle.NextLevelAt(hashes, |newHashes|);
      if i + 1 < |hashes| {
        var combined := hashes[i] + hashes[i + 1];
        newHashes := newHashes + [Sha256(combined)];
      } else {
        newHashes := newHashes + [hashes[i]]; // odd node carried forward
      }
      i := i + 2;
    }
  }

  // -------------------------------------------------------------------
  // Proof of work

  /** prepareData: Version, Height, PrevBlockHash, Timestamp, MerkleRoot, the
      nonce and Bits, then the JSON of the transactions, in that order. The
      Nonce and BlockReward fields of the header are not part of it. */
  function PrepareData(header: BlockHeader, txs: seq<Transaction>, nonce: int): (data: seq<byte>)
    ensures |data| == 40 + |header.PrevBlockHash| + |header.MerkleRoot| + |JsonList(txs)|
  {
    Pow.IntToHex(ToInt64(header.Version)) + Pow.IntToHex(ToInt64(header.Height))
      + header.PrevBlockHash + Pow.IntToHex(header.Timestamp) + header.MerkleRoot
      + Pow.IntToHex(ToInt64(nonce)) + Pow.IntToHex(ToInt64(header.Bits)) + JsonList(txs)
  }

  /** The header's integers read back from their positions: Version and
      Height first, then Timestamp after the previous hash. */
  lemma PrepareDataHeaderFields(header: BlockHeader, txs: seq<Transaction>, nonce: int)
    ensures var data := PrepareData(header, txs, nonce);
      var p := 16 + |header.PrevBlockHash|;
      && Pow.HexToInt(data[0..8]) == ToInt64(header.Version)
      && Pow.HexToInt(data[8..16]) == ToInt64(header.Height)
      && data[16..p] == header.PrevBlockHash
      && Pow.HexToInt(data[p..p + 8]) == header.Timestamp
  {
    var data := PrepareData(header, txs, nonce);
    var p := 16 + |header.PrevBlockHash|;
    assert data[0..8] == Pow.IntToHex(ToInt64(header.Version));
    assert data[8..16] == Pow.IntToHex(ToInt64(header.Height));
    assert data[p..p + 8] == Pow.IntToHex(header.Timestamp);
    Pow.IntToHexRoundTrip(ToInt64(header.Version));
    Pow.IntToHexRoundTrip(ToInt64(header.Height));
    Pow.IntToHexRoundTrip(header.Timestamp);
  }

  /** After the Merkle root come the nonce and Bits as 8-byte integers, and
      then the JSON of the transactions. */
  lemma PrepareDataTrailer(header: BlockHeader, txs: seq<Transaction>, nonce: int)
    ensures var data := PrepareData(header, txs, nonce);
      var p := 24 + |header.PrevBlockHash|;
      var q := p + |header.MerkleRoot|;
      && data[p..q] == header.MerkleRoot
      && Pow.HexToInt(data[q..q + 8]) == ToInt64(nonce)
      && Pow.HexToInt(data[q + 8..q + 16]) == ToInt64(header.Bits)
      && data[q + 16..] == JsonList(txs)
  {
    var data := PrepareData(header, txs, nonce);
    var q := 24 + |header.PrevBlockHash| + |header.MerkleRoot|;
    assert data[q..q + 8] == Pow.IntToHex(ToInt64(nonce));
    assert data[q + 8..q + 16] == Pow.IntToHex(ToInt64(header.Bits));
    Pow.IntToHexRoundTrip(ToInt64(nonce));
    Pow.IntToHexRoundTrip(ToInt64(header.Bits));
  }

  /** Nonce n seals the header and transactions. */
  predicate Meets(header: BlockHeader, txs: seq<Transaction>, n: int) {
    Pow.BelowTarget(Sha256(PrepareData(header, txs, n)))
  }

  /** What the bounded search returns: the first sealing nonce below
      MaxInt64 with its digest, or, when there is none, MaxInt64 with the
      digest of the last attempt, MaxInt64 - 1. */
  predicate SearchOutcome(header: BlockHeader, txs: seq<Transaction>, hash: seq<byte>, nonce: int) {
    && 0 <= nonce <= MaxInt64
    && (forall m :: 0 <= m < nonce ==> !Meets(header, txs, m))
    && (nonce < MaxInt64 ==> hash == Sha256(PrepareData(header, txs, nonce)) && Pow.BelowTarget(hash))
    && (nonce == MaxInt64 ==> hash == Sha256(PrepareData(header, txs, nonce - 1)))
  }

  /** The search gives up only when no nonce below MaxInt64 seals the block;
      a result below MaxInt64 carries 16 leading zero bits. */
  lemma SearchOutcomeFound(header: BlockHeader, txs: seq<Transaction>, hash: seq<byte>, nonce: int, m: int)
    requires SearchOutcome(header, txs, hash, nonce)
    requires 0 <= m < MaxInt64 && Meets(header, txs, m)
    ensures nonce <= m && |hash| == 32 && hash[0] == 0 && hash[1] == 0
  {
    Pow.BelowTargetIffLeadingZeros(hash);
  }

  /** The outcome is determined by its inputs: the search has one answer. */
  lemma SearchOutcomeUnique(header: BlockHeader, txs: seq<Transaction>,
                            hash: seq<byte>, nonce: int, hash': seq<byte>, nonce': int)
    requires SearchOutcome(header, txs, hash, nonce)
    requires SearchOutcome(header, txs, hash', nonce')
    ensures nonce == nonce' && hash == hash'
  {
    if nonce < MaxInt64 {
      SearchOutcomeFound(header, txs, hash', nonce', nonce);
    }
    if nonce' < MaxInt64 {
      SearchOutcomeFound(header, txs, hash, nonce, nonce');
    }
  }

  /** The Bits value stored in every header (1) is not the difficulty the
      target is built from (16): the threshold for 1 bit would be 2^255. */
  lemma HeaderBitsMisdescribeTarget(b: Block)
    requires Sealed(b)
    ensures b.Header.Bits == HeaderBits != Pow.TargetBits
    ensures Pow.Target < Pow2(256 - b.Header.Bits)
  {
    Pow.TargetValue();
    Pow2Monotone(256 - Pow.TargetBits, 256 - HeaderBits);
  }

  /** The proof-of-work context: the block by reference, and the threshold. */
  class ProofOfWork {
    const block: Block
    const target: nat := Pow.Target

    /** NewProofOfWork: 1 shifted left by 256 - targetBits. */
    constructor (b: Block)
      ensures block == b && target == Pow.Target
    {
      block := b;
    }

    /** Run: try every nonce from 0 while it is below MaxInt64. */
    method Run() returns (hash: seq<byte>, nonce: int)
      ensures SearchOutcome(block.Header, block.Body.Transactions, hash, nonce)
    {
      hash := seq(32, i => 0 as byte);
      nonce := 0;
      while nonce < MaxInt64
        invariant 0 <= nonce <= MaxInt64
        invariant forall m :: 0 <= m < nonce ==> !Meets(block.Header, block.Body.Transactions, m)
        invariant nonce > 0 ==> hash == Sha256(PrepareData(block.Header, block.Body.Transactions, nonce - 1))
        decreases MaxInt64 - nonce
      {
        var data := PrepareData(block.Header, block.Body.Transactions, nonce);
        hash := Sha256(data);
        var hashInt := BE2Nat(hash);
        if hashInt < target {
          break;
        }
        nonce := nonce + 1;
      }
    }
  }

  // -------------------------------------------------------------------
  // Blocks and the chain

  /** The header NewBlock builds before mining. */
  function InitialHeader(height: int, prevBlockHash: seq<byte>, timestamp: int64, merkleRoot: seq<byte>): BlockHeader {
    BlockHeader(HeaderVersion, height, prevBlockHash, timestamp, merkleRoot, 0, HeaderBits, HeaderReward)
  }

  /** What NewBlock leaves in a block: the initial header with the search's
      nonce written into it, and the search's digest as the hash. */
  ghost predicate Sealed(b: Block)
    reads b
  {
    var h := InitialHeader(b.Header.Height, b.Header.PrevBlockHash, b.Header.Timestamp, MerkleRoot(b.Body.Transactions));
    && b.Header == h.(Nonce := b.Header.Nonce)
    && SearchOutcome(h, b.Body.Transactions, b.Hash, b.Header.Nonce)
  }

  /** NewBlock: the clock reading is passed in as timestamp. */
  method NewBlock(transactions: seq<Transaction>, prevBlockHash: seq<byte>, height: int, timestamp: int64)
    returns (block: Block)
    ensures fresh(block)
    ensures block.Header.Height == height && block.Header.PrevBlockHash == prevBlockHash
    ensures block.Header.Timestamp == timestamp && block.Body.Transactions == transactions
    ensures Sealed(block)
  {
    var merkleRoot := CalculateMerkleRoot(transactions);
    var header := InitialHeader(height, prevBlockHash, timestamp, merkleRoot);
    var body := BlockBody(transactions);
    block := new Block(header, body);
    var pow := new ProofOfWork(block);
    var hash, nonce := pow.Run();
    block.Hash := hash;
    block.Header := block.Header.(Nonce := nonce);
  }

  /** NewGenesisBlock: one transaction paying the miner 50, stamped with the
      clock reading txTime, mined at height 0 on an empty previous hash. */
  method NewGenesisBlock(txTime: int64, blockTime: int64) returns (block: Block)
    ensures fresh(block)
    ensures block.Header.Height == 0 && block.Header.PrevBlockHash == [] && block.Header.Timestamp == blockTime
    ensures block.Body.Transactions == [Transaction("genesis", "miner", 50.0, txTime)]
    ensures block.Header.MerkleRoot == Sha256(Json(Transaction("genesis", "miner", 50.0, txTime)))
    ensures Sealed(block)
  {
    var genesisTx := Transaction("genesis", "miner", 50.0, txTime);
    block := NewBlock([genesisTx], [], 0, blockTime);
    RootBaseCases(genesisTx);
  }

  /** The chain invariant on a sequence of blocks: genesis first, heights
      equal to positions, each block linked to its predecessor's hash, and
      every block sealed. */
  ghost predicate WellFormedChain(bs: seq<Block>)
    reads bs
  {
    && |bs| >= 1
    && bs[0].Header.PrevBlockHash == []
    && (forall i :: 0 <= i < |bs| ==> bs[i].Header.Height == i)
    && (forall i :: 0 < i < |bs| ==> bs[i].Header.PrevBlockHash == bs[i - 1].Hash)
    && (forall i {:trigger Sealed(bs[i])} :: 0 <= i < |bs| ==> Sealed(bs[i]))
  }

  /** Appending a sealed block at the next height, linked to the tip's hash,
      keeps the chain invariant. */
  lemma AppendKeepsChain(bs: seq<Block>, b: Block)
    requires WellFormedChain(bs)
    requires Sealed(b) && b.Header.Height == |bs| && b.Header.PrevBlockHash == bs[|bs| - 1].Hash
    ensures WellFormedChain(bs + [b])
  {
    var chain := bs + [b];
    forall i | 0 <= i < |chain|
      ensures Sealed(chain[i]) && chain[i].Header.Height == i
    {
      if i < |bs| {
        assert chain[i] == bs[i];
      }
    }
    forall i | 0 < i < |chain|
      ensures chain[i].Header.PrevBlockHash == chain[i - 1].Hash
    {
      assert chain[i - 1] == if i - 1 < |bs| then bs[i - 1] else b;
    }
  }

  class Blockchain {
    var blocks: seq<Block>

    /** The stored blocks form a well-formed chain. */
    ghost predicate Valid()
      reads this, blocks
    {
      WellFormedChain(blocks)
    }

    /** NewBlockchain: only the genesis block. */
    constructor (txTime: int64, blockTime: int64)
      ensures Valid()
      ensures |blocks| == 1 && fresh(blocks[0]) && Sealed(blocks[0])
      ensures blocks[0].Header.Timestamp == blockTime
      ensures blocks[0].Body.Transactions == [Transaction("genesis", "miner", 50.0, txTime)]
    {
      var genesis := NewGenesisBlock(txTime, blockTime);
      blocks := [genesis];
    }

    /** AddBlock: the new height is the length of the chain, which under the
        invariant is the tip's height plus one. */
    method AddBlock(transactions: seq<Transaction>, timestamp: int64)
      requires Valid()
      modifies this
      ensures Valid()
      ensures |blocks| == |old(blocks)| + 1
      ensures blocks[..|old(blocks)|] == old(blocks)
      ensures var b := blocks[|blocks| - 1];
        && fresh(b) && Sealed(b)
        && b.Header.PrevBlockHash == old(blocks[|blocks| - 1].Hash)
        && b.Header.Height == |old(blocks)| == old(blocks[|blocks| - 1].Header.Height) + 1
        && b.Body.Transactions == transactions && b.Header.Timestamp == timestamp
    {
      var prevBlock := blocks[|blocks| - 1];
      var newBlock := NewBlock(transactions, prevBlock.Hash, |blocks|, timestamp);
      // Only the new block was allocated and written: the old ones are untouched.
      AppendKeepsChain(blocks, newBlock);
      blocks := blocks + [newBlock];
    }
  }
}
