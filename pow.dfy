/** Proof of work (package pow.go): the target, the header bytes that are
    hashed, the nonce search and the one-hash validation. */
module Pow {
  import opened Bytes
  import opened Blocks

  /** Difficulty: the number of leading zero bits a digest needs. */
  const TargetBits: nat := 16

  /** NewProofOfWork's threshold, 2^240, written out; TargetValue shows it is
      1 shifted left by 256 - TargetBits. */
  const Target: nat := 0x1_0000_0000_0000_0000_0000_0000_0000_0000_0000_0000_0000_0000_0000_0000_0000

  /** The threshold is 1 << (256 - TargetBits) = 2^240, which is 256^30. */
  lemma TargetValue()
    ensures Target == Pow2(256 - TargetBits) == Pow256(30)
  {
    var p10 := 0x1_0000_0000_0000_0000_0000;
    assert Pow256(10) == p10;
    calc {
      Pow256(30);
      { Pow256Add(20, 10); }
      Pow256(20) * Pow256(10);
      { Pow256Add(10, 10); }
      Pow256(10) * Pow256(10) * Pow256(10);
      p10 * p10 * p10;
      Target;
    }
    Pow2Eight(30);
  }

  /** hashInt.Cmp(target) == -1, with hashInt the digest read by SetBytes. */
  predicate BelowTarget(digest: seq<byte>) {
    BE2Nat(digest) < Target
  }

  /** A 32-byte digest is below the target exactly when its first 16 bits,
      its first two bytes, are zero. */
  lemma {:induction false} BelowTargetIffLeadingZeros(d: seq<byte>)
    requires |d| == 32
    ensures BelowTarget(d) <==> d[0] == 0 && d[1] == 0
  {
    TargetValue();
    var hi, lo := d[..2], d[2..];
    assert d == hi + lo;
    BE2NatConcat(hi, lo);
    BE2NatZero(hi);
    BE2NatBound(lo);
    assert BE2Nat(d) == BE2Nat(hi) * Pow256(30) + BE2Nat(lo);
    if hi[0] == 0 && hi[1] == 0 {
      assert BE2Nat(hi) == 0;
    } else {
      assert BE2Nat(hi) >= 1;
      assert BE2Nat(hi) * Pow256(30) >= Pow256(30);
    }
  }

  /** IntToHex: binary.Write of an int64 in big-endian order, i.e. the 8-byte
      two's-complement form. */
  function IntToHex(n: int64): (bytes: seq<byte>)
    ensures |bytes| == 8
  {
    BigEndian(if n < 0 then n + TwoTo64 else n, 8)
  }

  /** binary.Read of an int64 in big-endian order. */
  function HexToInt(bytes: seq<byte>): int64
    requires |bytes| == 8
  {
    var u := BE2Nat(bytes);
    assert u < TwoTo64 by {
      BE2NatBound(bytes);
      Pow256Eight();
    }
    if u > MaxInt64 then u - TwoTo64 else u
  }

  /** Reading back IntToHex(n) gives n. */
  lemma IntToHexRoundTrip(n: int64)
    ensures HexToInt(IntToHex(n)) == n
  {
    var u: nat := if n < 0 then n + TwoTo64 else n;
    var bytes := BigEndian(u, 8);
    assert IntToHex(n) == bytes;
    Pow256Eight();
    BigEndianRoundTrip(u, 8);
    ModOfSum(u, TwoTo64, 0, u);
    assert BE2Nat(bytes) == u;
  }

  /** Every 8-byte sequence is IntToHex of exactly the int64 it reads as. */
  lemma HexToIntRoundTrip(bytes: seq<byte>)
    requires |bytes| == 8
    ensures IntToHex(HexToInt(bytes)) == bytes
  {
    var u := BE2Nat(bytes);
    assert u < TwoTo64 by {
      BE2NatBound(bytes);
      Pow256Eight();
    }
    var h := HexToInt(bytes);
    assert (if h < 0 then h + TwoTo64 else h) == u;
    BigEndianOfBE2Nat(bytes);
  }

  /** prepareData: PrevBlockHash ++ MerkleRootHash ++ IntToHex(Timestamp) ++
      IntToHex(targetBits) ++ IntToHex(nonce). Its parameters are the only
      fields of the block it reads. */
  function PrepareData(prevHash: seq<byte>, merkleRoot: seq<byte>, timestamp: int64, nonce: int): (data: seq<byte>)
    ensures |data| == |prevHash| + |merkleRoot| + 24
  {
    prevHash + merkleRoot + IntToHex(timestamp) + IntToHex(TargetBits) + IntToHex(ToInt64(nonce))
  }

  /** The header bytes start with the two hashes and then the timestamp as an
      8-byte integer. */
  lemma PrepareDataLayout(prevHash: seq<byte>, merkleRoot: seq<byte>, timestamp: int64, nonce: int)
    ensures var data := PrepareData(prevHash, merkleRoot, timestamp, nonce);
      var k := |prevHash| + |merkleRoot|;
      && data[..|prevHash|] == prevHash
      && data[|prevHash|..k] == merkleRoot
      && HexToInt(data[k..k + 8]) == timestamp
  {
    var data := PrepareData(prevHash, merkleRoot, timestamp, nonce);
    var k := |prevHash| + |merkleRoot|;
    assert data[k..k + 8] == IntToHex(timestamp);
    IntToHexRoundTrip(timestamp);
  }

  /** The last 16 header bytes are the difficulty and the nonce as 8-byte integers. */
  lemma PrepareDataTrailer(prevHash: seq<byte>, merkleRoot: seq<byte>, timestamp: int64, nonce: int)
    ensures var data := PrepareData(prevHash, merkleRoot, timestamp, nonce);
      var k := |prevHash| + |merkleRoot|;
      && HexToInt(data[k + 8..k + 16]) == TargetBits
      && HexToInt(data[k + 16..]) == ToInt64(nonce)
  {
    var data := PrepareData(prevHash, merkleRoot, timestamp, nonce);
    var k := |prevHash| + |merkleRoot|;
    assert data[k + 8..k + 16] == IntToHex(TargetBits);
    assert data[k + 16..] == IntToHex(ToInt64(nonce));
    IntToHexRoundTrip(TargetBits);
    IntToHexRoundTrip(ToInt64(nonce));
  }

  /** Two nonces of the int range give different header bytes, so every
      attempt of the search hashes a different input. */
  lemma PrepareDataInjective(prevHash: seq<byte>, merkleRoot: seq<byte>, timestamp: int64, n: int, m: int)
    requires MinInt64 <= n <= MaxInt64 && MinInt64 <= m <= MaxInt64 && n != m
    ensures PrepareData(prevHash, merkleRoot, timestamp, n) != PrepareData(prevHash, merkleRoot, timestamp, m)
  {
    PrepareDataTrailer(prevHash, merkleRoot, timestamp, n);
    PrepareDataTrailer(prevHash, merkleRoot, timestamp, m);
  }

  /** Nonce n seals the header material. */
  predicate Meets(prevHash: seq<byte>, merkleRoot: seq<byte>, timestamp: int64, n: int) {
    BelowTarget(Sha256(PrepareData(prevHash, merkleRoot, timestamp, n)))
  }

  /** Some nonce seals the header material: without one the search never stops. */
  ghost predicate Mineable(prevHash: seq<byte>, merkleRoot: seq<byte>, timestamp: int64) {
    exists n: nat :: Meets(prevHash, merkleRoot, timestamp, n)
  }

  /** The proof-of-work context: the block being mined, by reference, and its target. */
  class ProofOfWork {
    const block: Block
    const target: nat := Target

    /** NewProofOfWork. */
    constructor (b: Block)
      ensures block == b && target == Target
    {
      block := b;
    }

    /** Run: try nonce 0, 1, 2, ... and stop at the first whose digest is below
        the target; return that nonce with its digest. */
    method Run() returns (nonce: int, hash: seq<byte>)
      requires Mineable(block.PrevBlockHash, block.MerkleRootHash, block.Timestamp)
      ensures nonce >= 0
      ensures hash == Sha256(PrepareData(block.PrevBlockHash, block.MerkleRootHash, block.Timestamp, nonce))
      ensures BE2Nat(hash) < target
      ensures forall m :: 0 <= m < nonce ==> !Meets(block.PrevBlockHash, block.MerkleRootHash, block.Timestamp, m)
    {
      ghost var w: nat :| Meets(block.PrevBlockHash, block.MerkleRootHash, block.Timestamp, w);
      nonce := 0;
      while true
        invariant 0 <= nonce <= w
        invariant forall m :: 0 <= m < nonce ==> !Meets(block.PrevBlockHash, block.MerkleRootHash, block.Timestamp, m)
        decreases w - nonce
      {
        var data := PrepareData(block.PrevBlockHash, block.MerkleRootHash, block.Timestamp, nonce);
        hash := Sha256(data);
        var hashInt := BE2Nat(hash);
        if hashInt < target {
          break;
        }
        assert !Meets(block.PrevBlockHash, block.MerkleRootHash, block.Timestamp, nonce);
        assert nonce != w;
        nonce := nonce + 1;
      }
    }

    /** Validate: one hash of the header with the block's stored nonce. The
        answer is whether that digest starts with 16 zero bits. */
    function Validate(): (valid: bool)
      reads block
      ensures var d := Sha256(PrepareData(block.PrevBlockHash, block.MerkleRootHash, block.Timestamp, block.Nonce));
        valid <==> d[0] == 0 && d[1] == 0
    {
      var data := PrepareData(block.PrevBlockHash, block.MerkleRootHash, block.Timestamp, block.Nonce);
      var hash := Sha256(data);
      BelowTargetIffLeadingZeros(hash);
      BE2Nat(hash) < target
    }
  }
}
