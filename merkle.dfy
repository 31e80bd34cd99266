/** The Merkle root of a block's transactions (package merkle.go). */
module Merkle {
  import opened Bytes
  import opened Blocks

  /** The leaf of a transaction: the digest of its Data, nothing else. */
  function Leaf(tx: Transaction): seq<byte> {
    Sha256(StringBytes(tx.Data))
  }

  function Leaves(txs: seq<Transaction>): seq<seq<byte>> {
    seq(|txs|, i requires 0 <= i < |txs| => Leaf(txs[i]))
  }

  /** One level of the reduction: adjacent nodes are hashed together left to
      right, and a lone last node is carried into the next level unchanged. */
  function NextLevel(hs: seq<seq<byte>>): (next: seq<seq<byte>>)
    ensures |hs| <= 2 * |next| <= |hs| + 1
  {
    if |hs| <= 1 then hs else [Sha256(hs[0] + hs[1])] + NextLevel(hs[2..])
  }

  /** Levels are reduced until a single node is left. */
  function MerkleReduce(hs: seq<seq<byte>>): seq<byte>
    requires |hs| >= 1
    decreases |hs|
  {
    if |hs| == 1 then hs[0] else MerkleReduce(NextLevel(hs))
  }

  /** The Merkle root; the empty sentinel for no transactions. */
  function MerkleRoot(txs: seq<Transaction>): seq<byte> {
    if |txs| == 0 then [] else MerkleReduce(Leaves(txs))
  }

  /** Node k of the next level, by position: a pair combined as H(left ++ right),
      or, at the end of an odd level, the last node itself. */
  lemma {:induction false} NextLevelAt(hs: seq<seq<byte>>, k: nat)
    requires 2 * k < |hs|
    ensures NextLevel(hs)[k] == if 2 * k + 1 < |hs| then Sha256(hs[2 * k] + hs[2 * k + 1]) else hs[2 * k]
  {
    if |hs| > 1 && k > 0 {
      var tail := hs[2..];
      NextLevelAt(tail, k - 1);
      assert NextLevel(hs)[k] == NextLevel(tail)[k - 1];
      assert tail[2 * (k - 1)] == hs[2 * k];
      assert 2 * (k - 1) + 1 < |tail| ==> tail[2 * (k - 1) + 1] == hs[2 * k + 1];
    }
  }

  /** An odd level's last node survives untouched; it is never hashed with itself. */
  lemma OddCarry(hs: seq<seq<byte>>)
    requires |hs| % 2 == 1
    ensures NextLevel(hs)[|NextLevel(hs)| - 1] == hs[|hs| - 1]
  {
    NextLevelAt(hs, |hs| / 2);
  }

  /** Reducing nodes that are all digests gives a digest. */
  lemma {:induction false} ReduceIsHashOutput(hs: seq<seq<byte>>)
    requires |hs| >= 1
    requires forall i :: 0 <= i < |hs| ==> IsHashOutput(hs[i])
    ensures IsHashOutput(MerkleReduce(hs))
    decreases |hs|
  {
    if |hs| > 1 {
      var next := NextLevel(hs);
      forall k | 0 <= k < |next| ensures IsHashOutput(next[k]) {
        NextLevelAt(hs, k);
        if 2 * k + 1 < |hs| {
          assert next[k] == Sha256(hs[2 * k] + hs[2 * k + 1]);
        }
      }
      ReduceIsHashOutput(next);
    }
  }

  /** No transactions give the empty sentinel; otherwise the root is a digest,
      32 bytes long. */
  lemma RootShape(txs: seq<Transaction>)
    ensures txs == [] ==> MerkleRoot(txs) == []
    ensures txs != [] ==> IsHashOutput(MerkleRoot(txs)) && |MerkleRoot(txs)| == 32
  {
    if txs != [] {
      var ls := Leaves(txs);
      forall i | 0 <= i < |ls| ensures IsHashOutput(ls[i]) {
        assert ls[i] == Sha256(StringBytes(txs[i].Data));
      }
      ReduceIsHashOutput(ls);
    }
  }

  /** A single transaction's root is its leaf: no level is ever combined. */
  lemma SingleRoot(tx: Transaction)
    ensures MerkleRoot([tx]) == Sha256(StringBytes(tx.Data))
  {
  }

  /** The carry rule on three nodes: the third waits one level, then joins. */
  lemma ReduceThree(x: seq<byte>, y: seq<byte>, z: seq<byte>)
    ensures MerkleReduce([x, y, z]) == Sha256(Sha256(x + y) + z)
  {
    var hs := [x, y, z];
    assert hs[2..] == [z];
    assert NextLevel(hs[2..]) == [z];
    var level1 := NextLevel(hs);
    assert level1 == [Sha256(hs[0] + hs[1])] + NextLevel(hs[2..]);
    assert level1 == [Sha256(x + y), z];
    assert level1[2..] == [];
    var level2 := NextLevel(level1);
    assert level2 == [Sha256(level1[0] + level1[1])] + NextLevel(level1[2..]);
    assert level2 == [Sha256(Sha256(x + y) + z)];
    assert MerkleReduce(hs) == MerkleReduce(level1) == MerkleReduce(level2);
  }

  /** The carry rule on three transactions: H(H(H(a) ++ H(b)) ++ H(c)). */
  lemma ThreeRoot(a: Transaction, b: Transaction, c: Transaction)
    ensures MerkleRoot([a, b, c]) == Sha256(Sha256(Leaf(a) + Leaf(b)) + Leaf(c))
  {
    assert Leaves([a, b, c]) == [Leaf(a), Leaf(b), Leaf(c)];
    ReduceThree(Leaf(a), Leaf(b), Leaf(c));
  }

  /** The root sees only the ordered Data strings: Sender, Receiver and Amount
      never affect it. */
  lemma RootDependsOnlyOnData(txs: seq<Transaction>, txs': seq<Transaction>)
    requires |txs| == |txs'|
    requires forall i :: 0 <= i < |txs| ==> txs[i].Data == txs'[i].Data
    ensures MerkleRoot(txs) == MerkleRoot(txs')
  {
    assert Leaves(txs) == Leaves(txs');
  }

  /** CalculateMerkleRoot: leaves first, then level after level until one node remains. */
  method CalculateMerkleRoot(txs: seq<Transaction>) returns (root: seq<byte>)
    ensures root == MerkleRoot(txs)
  {
    if |txs| == 0 {
      return [];
    }
    var hashes: seq<seq<byte>> := [];
    for j := 0 to |txs|
      invariant |hashes| == j
      invariant forall k :: 0 <= k < j ==> hashes[k] == Leaf(txs[k])
    {
      hashes := hashes + [Sha256(StringBytes(txs[j].Data))];
    }
    assert hashes == Leaves(txs);
    assert MerkleReduce(hashes) == MerkleRoot(txs);
    while |hashes| > 1
      invariant |hashes| >= 1
      invariant MerkleReduce(hashes) == MerkleRoot(txs)
      decreases |hashes|
    {
      var newLevel := BuildLevel(hashes);
      assert newLevel == NextLevel(hashes);
      assert MerkleReduce(hashes) == MerkleReduce(newLevel);
      hashes := newLevel;
    }
    root := hashes[0];
  }

  /** The inner loop of CalculateMerkleRoot: one level, built left to right. */
  method BuildLevel(hashes: seq<seq<byte>>) returns (newLevel: seq<seq<byte>>)
    ensures newLevel == NextLevel(hashes)
  {
    newLevel := [];
    var i := 0;
    while i < |hashes|
      invariant i == 2 * |newLevel| <= |hashes| + 1
      invariant forall k :: 0 <= k < |newLevel| ==> newLevel[k] == NextLevel(hashes)[k]
      decreases |hashes| - i
    {
      NextLevelAt(hashes, |newLevel|);
      if i + 1 == |hashes| {
        newLevel := newLevel + [hashes[i]];
      } else {
        var combined := hashes[i] + hashes[i + 1];
        newLevel := newLevel + [Sha256(combined)];
      }
      i := i + 2;
    }
  }
}
