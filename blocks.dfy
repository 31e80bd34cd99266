/** The records of the ledger package: transactions and blocks. */
module Blocks {
  import opened Bytes

  /** An immutable transfer record; only Data reaches the hash of a block. */
  datatype Transaction = Transaction(Sender: string, Receiver: string, Amount: int, Data: string)

  /** NewTransaction: the optional payload defaults to "<sender> pays <receiver>". */
  function NewTransaction(sender: string, receiver: string, amount: int, data: seq<string>): (tx: Transaction)
    ensures tx.Sender == sender && tx.Receiver == receiver && tx.Amount == amount
    ensures |data| > 0 ==> tx.Data == data[0]
    ensures |data| == 0 ==> tx.Data == sender + " pays " + receiver
  {
    var txData := if |data| > 0 then data[0] else sender + " pays " + receiver;
    Transaction(sender, receiver, amount, txData)
  }

  /** A block is a heap object: NewBlock fills in Nonce and Hash after mining. */
  class Block {
    var Timestamp: int64
    var Height: int
    var PrevBlockHash: seq<byte>
    var Hash: seq<byte>
    var MerkleRootHash: seq<byte>
    var Nonce: int
    var Bits: int
    var Version: int
    var Reward: int
    var Transactions: seq<Transaction>

    /** The composite literal of NewBlock: Hash and Nonce keep their zero values. */
    constructor (height: int, timestamp: int64, prevHash: seq<byte>, merkleRoot: seq<byte>,
                 bits: int, version: int, reward: int, transactions: seq<Transaction>)
      ensures Height == height && Timestamp == timestamp && PrevBlockHash == prevHash
      ensures MerkleRootHash == merkleRoot && Bits == bits && Version == version && Reward == reward
      ensures Transactions == transactions
      ensures Hash == [] && Nonce == 0
    {
      Height := height;
      Timestamp := timestamp;
      PrevBlockHash := prevHash;
      MerkleRootHash := merkleRoot;
      Bits := bits;
      Version := version;
      Reward := reward;
      Transactions := transactions;
      Hash := [];
      Nonce := 0;
    }
  }
}
