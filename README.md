# blockchain-go: a Dafny model of block sealing

This project models the block-sealing core of a small proof-of-work ledger
written in Go, and proves properties about it. It covers:

- **Merkle root** (`Merkle`). Each transaction's `Data` is hashed into a leaf. Adjacent
  nodes are then hashed together, level by level, and an odd last node is carried
  into the next level without being hashed.
- **Proof of work** (`Pow`).
  - The target is `1 << (256 - 16)`.
  - The header bytes hashed for a nonce are five parts joined together, the last
    three of them 8-byte big-endian integers.
  - `Run` searches nonces from 0 upwards for the first whose SHA-256 digest,
    read as a big-endian number, is below the target.
  - `Validate` hashes the header once more with the stored nonce.
- **Block factory** (`BlockFactory`). Fills in a block, mines it, writes the nonce
  and hash back into the block, and checks the result.
- **Chain ledger** (`Chain`). An append-only sequence of blocks that starts with
  the genesis block. Each new block links to the tip's hash.
- **Prototype** (`Prototype`). The earlier single-file version of the same logic.
  - Blocks have a header and a body, and leaves are the JSON of whole transactions.
  - Header bytes also include version, height, stored Bits and the JSON of the
    transaction list.
  - The nonce search stops at the largest int64.
  - Every header records `Bits: 1`, although the target is built from 16 bits.
  - A new block's height is the current length of the chain.

Shared pieces live in `Bytes`:
- the byte type, Go's `int64` and its wrap-around conversion;
- big-endian numerals, which is what `big.Int.SetBytes` and `binary.Write` compute;
- SHA-256 and Go's `[]byte(string)`, as uninterpreted functions.

SHA-256 is a fixed but unknown table whose every output is 32 bytes long. JSON
encoding is modelled the same way, as unknown tables. Every function of that
kind arises from some choice of table, so nothing is assumed about the hash
beyond its length.

`Block` is a class in both variants: mining writes `Nonce` and `Hash` into the
block after it was made. The proof-of-work object holds the block by
reference, so `Validate` sees the nonce that `NewBlock` stored. Transactions
are never changed after they are built, so they are datatypes.

Clock readings (`time.Now().Unix()`) are parameters: `timestamp`, and in the
prototype's genesis block `txTime` and `blockTime`.

The package's `Run` has no bound on its loop. The model keeps every loop
provably terminating, so `Run`, `NewBlock`, `NewGenesisBlock`, `NewBlockchain` and
`AddBlock` require that some nonce seals the header (`Mineable`). Applied to
that nonce, the search returns the least sealing nonce.

## Model

| member | source | states |
|---|---|---|
| `Blocks.NewTransaction` | blockchain/block.go:41-55 | Sender, receiver and amount are copied in; Data is the first optional argument when one is given, otherwise `sender + " pays " + receiver` |
| `Blocks.Block.constructor` | blockchain/block_factgory.go:17-26 | the block literal of NewBlock: the given fields, with Hash empty and Nonce 0 until mining |
| `Merkle.NextLevel` | blockchain/merkle.go:15-27 | one level of the reduction has ceil(n/2) nodes, so the outer loop shrinks the level until one node is left |
| `Merkle.NextLevelAt` | blockchain/merkle.go:17-25 | node k of the next level is `H(hs[2k] ++ hs[2k+1])` when the pair exists, and otherwise the last node itself |
| `Merkle.OddCarry` | blockchain/merkle.go:18-19 | an odd level's last node is carried unchanged into the next level, never hashed with itself |
| `Merkle.ReduceIsHashOutput` | blockchain/merkle.go:15-28 | reducing nodes that are all digests yields a digest: every combined node is an H output |
| `Merkle.RootShape` | blockchain/merkle.go:6-29 | no transactions give the empty byte sequence; any other list gives a 32-byte H output |
| `Merkle.SingleRoot` | blockchain/merkle.go:11-15 | one transaction's root is `H(Data)`, since the reduction loop never runs |
| `Merkle.ThreeRoot` | blockchain/merkle.go:20-23 | pairs combine left to right: the root of [a, b, c] is `H(H(H(a) ++ H(b)) ++ H(c))` |
| `Merkle.RootDependsOnlyOnData` | blockchain/merkle.go:12 | lists with the same Data strings in the same order have the same root: Sender, Receiver and Amount never matter |
| `Merkle.CalculateMerkleRoot` | blockchain/merkle.go:6-29 | the loops compute the Merkle root: leaves from Data, then levels until one node remains |
| `Merkle.BuildLevel` | blockchain/merkle.go:16-25 | the inner loop, with the `i+1 == len` carry test first, builds exactly the next level |
| `Pow.TargetValue` | blockchain/pow.go:20-24 | the target `1 << (256 - targetBits)` is 2^240 = 256^30 |
| `Pow.BelowTargetIffLeadingZeros` | blockchain/pow.go:46-48 | a 32-byte digest read by SetBytes is below the target iff its first two bytes (16 bits) are zero |
| `Pow.IntToHex` | blockchain/pow.go:68-75 | the encoding is always 8 bytes long |
| `Pow.IntToHexRoundTrip` | blockchain/pow.go:68-75 | decoding the 8 bytes as a big-endian two's-complement int64 gives n back |
| `Pow.HexToIntRoundTrip` | blockchain/pow.go:68-75 | every 8-byte sequence is the encoding of the int64 it decodes to, so the encoding is a bijection |
| `Pow.PrepareData` | blockchain/pow.go:27-36 | the header bytes have length len(prev) + len(merkle) + 24; the signature shows that only prev hash, merkle root, timestamp and the nonce argument are read |
| `Pow.PrepareDataLayout` | blockchain/pow.go:28-31 | the header bytes begin with PrevBlockHash, then MerkleRootHash, then the timestamp as an 8-byte integer |
| `Pow.PrepareDataTrailer` | blockchain/pow.go:32-33 | the last 16 bytes decode to targetBits (16) and to `int64(nonce)` |
| `Pow.PrepareDataInjective` | blockchain/pow.go:33 | different int64 nonces give different header bytes |
| `Pow.ProofOfWork.constructor` | blockchain/pow.go:20-24 | NewProofOfWork keeps a reference to the block, and its target is 2^240 |
| `Pow.ProofOfWork.Run` | blockchain/pow.go:39-54 | returns a nonce >= 0 whose digest `H(prepareData(nonce))` is returned with it and is below the target, and every smaller nonce fails the test |
| `Pow.ProofOfWork.Validate` | blockchain/pow.go:57-65 | true exactly when the digest of the header at the block's stored nonce starts with 16 zero bits; it is a function and does not change the block |
| `BlockFactory.MinedHashShape` | blockchain/block_factgory.go:30-32 | a mined block's hash is 32 bytes and starts with two zero bytes |
| `BlockFactory.NewBlock` | blockchain/block_factgory.go:16-42 | a fresh block holds the given height, timestamp, prev hash and transactions; its merkle root is the root of the transactions; Bits = 16, Version = 1, Reward = 50; Nonce and Hash are the least sealing nonce and its digest; Validate reports VALID, so the INVALID branch is unreachable |
| `BlockFactory.MinedValidates` | blockchain/block_factgory.go:34-40 | for a mined block, Validate reports VALID, so NewBlock's INVALID branch is unreachable |
| `BlockFactory.NewGenesisBlock` | blockchain/block_factgory.go:45-50 | height 0, empty prev hash, the single "Genesis Block" transaction, merkle root `H("Genesis Block")`, and mined |
| `Chain.AppendKeepsChain` | blockchain/block.go:29-33 | appending a mined block at the next height, linked to the tip's hash, keeps the ledger invariant (genesis first, every block mined, each linked to its predecessor, heights equal to positions) |
| `Chain.Blockchain.constructor` | blockchain/block.go:24-26 | NewBlockchain holds exactly one block, the genesis block: its transactions are the single "Genesis Block" transaction, its merkle root is `H("Genesis Block")`, and the chain invariant holds |
| `Chain.Blockchain.AddBlock` | blockchain/block.go:29-33 | on a valid (non-empty) chain: grows by one; the old sequence is a prefix of the new one; the new block links to the old tip's hash at the old tip's height plus one; the invariant is kept (genesis first, every block mined, each linked to its predecessor, heights equal to positions) |
| `Chain.Blockchain.Blocks` | blockchain/block.go:36-38 | returns the stored sequence itself, not a copy, in height order |
| `Chain.ValidChainIsLinked` | blockchain/block.go:29-33 | in any valid ledger, every block after the genesis block links to its predecessor's hash, and every block's hash, the genesis block's included, starts with 16 zero bits |
| `Prototype.Block.constructor` | blockchain.go:151-155 | the block literal: the header and body given, and an empty hash |
| `Prototype.RootBaseCases` | blockchain.go:106-115 | an empty list gives the empty root; one transaction's root is `H(json(tx))` |
| `Prototype.RootDependsOnlyOnEncodings` | blockchain.go:112-116 | transactions enter the root only through their JSON encodings, in order |
| `Prototype.CalculateMerkleRoot` | blockchain.go:106-132 | the loops compute the same level-by-level root as the package, over JSON leaves |
| `Prototype.PairUp` | blockchain.go:119-128 | the inner loop, with the `i+1 < len` pairing test first, builds exactly the next level, odd node carried |
| `Prototype.PrepareData` | blockchain.go:56-75 | the header bytes are len(prev) + len(merkle) + 40 bytes long, plus the length of the JSON |
| `Prototype.PrepareDataHeaderFields` | blockchain.go:60-65 | the header bytes begin with Version and Height as 8-byte integers, then PrevBlockHash, then Timestamp, each decoding back |
| `Prototype.PrepareDataTrailer` | blockchain.go:66-69 | the Merkle root comes next, followed by the nonce and Bits as 8-byte integers, then the JSON of the transactions |
| `Prototype.SearchOutcomeFound` | blockchain.go:84-95 | if some nonce below MaxInt64 seals the block, the search stops at or before it, and the hash starts with 16 zero bits |
| `Prototype.SearchOutcomeUnique` | blockchain.go:84-95 | the outcome of the bounded search is determined by the header and transactions |
| `Prototype.HeaderBitsMisdescribeTarget` | blockchain.go:145 | in every sealed block the stored Bits is 1, not targetBits (16): the target actually used, 2^240, is far below the 2^255 that the stored Bits would give |
| `Prototype.ProofOfWork.constructor` | blockchain.go:50-54 | a reference to the block, and the same 2^240 target as the package |
| `Prototype.ProofOfWork.Run` | blockchain.go:77-96 | scans nonces from 0 while below MaxInt64; returns either the first sealing nonce with its digest, or MaxInt64 with the digest of attempt MaxInt64 - 1; every smaller nonce fails |
| `Prototype.NewBlock` | blockchain.go:134-164 | a fresh block whose header is the initial one (Version 1, Bits 1, reward 6.25, the merkle root of the transactions) except that the search's nonce is written into it; its body holds the transactions and its hash is the search's digest |
| `Prototype.NewGenesisBlock` | blockchain.go:183-191 | height 0, empty prev hash, one transaction from "genesis" to "miner" of 50 stamped txTime, root `H(json(tx))`, and sealed |
| `Prototype.AppendKeepsChain` | blockchain.go:177-181 | appending a sealed block at height len(blocks), linked to the tip's hash, keeps the chain invariant (genesis prev hash empty, heights equal to positions, each block linked to its predecessor, every block sealed) |
| `Prototype.Blockchain.constructor` | blockchain.go:193-195 | a chain of only the sealed genesis block, stamped blockTime, with the genesis transaction stamped txTime, satisfying the invariant |
| `Prototype.Blockchain.AddBlock` | blockchain.go:177-181 | grows by one and keeps the old blocks as a prefix; the new block is sealed and links to the tip's hash; its height `len(blocks)` equals the tip's height plus one; the invariant holds (genesis prev hash empty, heights equal to positions, each block linked to its predecessor, every block sealed) |

## Left out

- `main.go` and the prototype's `main()` are demo drivers that only call the core and print. They are not modelled.
- Printing is left out: the `fmt` messages of `NewBlock` and of the prototype's `Run`. The boolean that `NewBlock` prints is modelled, as `Validate`'s result.
- The hash and the encoders are uninterpreted functions. This covers SHA-256 internals, `json.Marshal` of a transaction and of a transaction list, and Go's `[]byte(string)`. In particular, the model does not distinguish the `null` that Go writes for a nil list from `[]`.
- The clock is a parameter of every operation that reads it.
- `float64` fields (`Amount`, `BlockReward` in the prototype) are modelled as `real`. They reach nothing but the JSON encoder.
- The `log.Panic` branch of `IntToHex` is not modelled. Writing an int64 into a memory buffer does not fail.
- `calculateHash` in the prototype is not modelled. Nothing calls it, and it is only JSON plus a hash.
- `Pow.ProofOfWork.Run` requires that some nonce seals the header. Without one, the source's unbounded loop never returns (and its `int` nonce would eventually wrap), and the model keeps every loop provably terminating, with a termination measure. The same requirement passes up to `BlockFactory.NewBlock`, `BlockFactory.NewGenesisBlock`, `Chain.Blockchain.constructor` and `Chain.Blockchain.AddBlock`.
- Go's `int` (height, nonce, Version, Bits) is an unbounded integer. Where the source converts with `int64(...)`, the model wraps explicitly (`ToInt64`). Heights are not wrapped, and a height beyond 2^63 - 1 is out of scope.
- The inner loop of each Merkle computation is a separate method (`BuildLevel`, `PairUp`). These methods compute the same values as the nested loop of the source.
- The prototype reuses the package's `IntToHex`, its target and its Merkle level functions, because its code for them behaves the same as the package's. The text differs in two places. The prototype's `IntToHex` discards the `binary.Write` error (blockchain.go:102), where the package panics on it; that write cannot fail. The prototype's inner Merkle loop tests for a pair first (`i+1 < len(hashes)`, blockchain.go:121), where the package tests for the carry first (`i+1 == len(hashes)`, blockchain/merkle.go:18); `Prototype.PairUp` models the prototype's test order and is proved to build the same level.
- Slices are values in the model. Go's `append(hashes[i], hashes[i+1]...)` could share memory only if `hashes[i]` had spare capacity, and a 32-byte digest slice has none. So aliasing between Merkle nodes is not modelled.
- The chance that a random change to a nonce still validates depends on the behaviour of SHA-256. It is outside the model.
