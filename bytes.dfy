/** Bytes, fixed-width integers, big-endian numerals and the hash function
    that the ledger treats as a black box. */
module Bytes {

  newtype byte = x: int | 0 <= x < 256

  const MinInt64: int := -0x8000_0000_0000_0000
  const MaxInt64: int := 0x7fff_ffff_ffff_ffff
  const TwoTo64: nat := 0x1_0000_0000_0000_0000

  /** Go's int64. */
  type int64 = x: int | MinInt64 <= x <= MaxInt64

  /** Go's conversion int64(x): two's-complement wrap-around modulo 2^64. */
  function ToInt64(x: int): (r: int64)
    ensures (r - x) % TwoTo64 == 0
    ensures MinInt64 <= x <= MaxInt64 ==> r == x
  {
    var u := x % TwoTo64;
    if u > MaxInt64 then u - TwoTo64 else u
  }

  /** The digests of crypto/sha256, left uninterpreted: some fixed table. */
  const Sha256Table: imap<seq<byte>, seq<byte>>

  /** crypto/sha256.Sum256: a fixed but unknown function whose every output is
      32 bytes long. Every such function is Sha256 for some choice of table. */
  function Sha256(s: seq<byte>): (d: seq<byte>)
    ensures |d| == 32
  {
    if s in Sha256Table && |Sha256Table[s]| == 32 then Sha256Table[s] else seq(32, i => 0 as byte)
  }

  /** d is the digest of some input. */
  ghost predicate IsHashOutput(d: seq<byte>) {
    exists s :: d == Sha256(s)
  }

  function Pow2(k: nat): (r: nat)
    ensures r >= 1
  {
    if k == 0 then 1 else 2 * Pow2(k - 1)
  }

  function Pow256(k: nat): (r: nat)
    ensures r >= 1
  {
    if k == 0 then 1 else 256 * Pow256(k - 1)
  }

  lemma {:induction false} Pow2Eight(k: nat)
    ensures Pow2(8 * k) == Pow256(k)
  {
    if k > 0 {
      Pow2Eight(k - 1);
      var n := 8 * (k - 1);
      assert Pow2(n + 8) == 256 * Pow2(n) by {
        assert Pow2(n + 8) == 2 * Pow2(n + 7) == 4 * Pow2(n + 6) == 8 * Pow2(n + 5)
          == 16 * Pow2(n + 4) == 32 * Pow2(n + 3) == 64 * Pow2(n + 2) == 128 * Pow2(n + 1);
      }
    }
  }

  /** Eight bytes span the 2^64 values of a 64-bit word. */
  lemma Pow256Eight()
    ensures Pow256(8) == TwoTo64
  {
  }

  lemma {:induction false} Pow256Add(a: nat, b: nat)
    ensures Pow256(a + b) == Pow256(a) * Pow256(b)
  {
    if b > 0 {
      Pow256Add(a, b - 1);
      assert Pow256(a + b) == 256 * Pow256(a + b - 1);
      assert Pow256(a) * Pow256(b) == Pow256(a) * (256 * Pow256(b - 1));
    }
  }

  lemma {:induction false} Pow2Monotone(a: nat, b: nat)
    requires a < b
    ensures Pow2(a) < Pow2(b)
  {
    if b > a + 1 { Pow2Monotone(a, b - 1); }
  }

  /** big.Int.SetBytes: the bytes read as an unsigned big-endian numeral. */
  function BE2Nat(s: seq<byte>): nat {
    if s == [] then 0 else BE2Nat(s[..|s| - 1]) * 256 + s[|s| - 1] as nat
  }

  /** A k-byte numeral is below 256^k. */
  lemma {:induction false} BE2NatBound(s: seq<byte>)
    ensures BE2Nat(s) < Pow256(|s|)
  {
    if s != [] {
      var m := BE2Nat(s[..|s| - 1]);
      BE2NatBound(s[..|s| - 1]);
      assert m <= Pow256(|s| - 1) - 1;
      assert m * 256 <= 256 * Pow256(|s| - 1) - 256;
    }
  }

  /** Reading a concatenation: the high part is shifted by the length of the low part. */
  lemma {:induction false} BE2NatConcat(a: seq<byte>, b: seq<byte>)
    ensures BE2Nat(a + b) == BE2Nat(a) * Pow256(|b|) + BE2Nat(b)
  {
    if b == [] {
      assert a + b == a;
    } else {
      var b' := b[..|b| - 1];
      var ab, ab' := a + b, a + b';
      var c := b[|b| - 1] as nat;
      assert ab[..|ab| - 1] == ab' && ab[|ab| - 1] as nat == c;
      assert BE2Nat(ab) == BE2Nat(ab') * 256 + c;
      assert BE2Nat(b) == BE2Nat(b') * 256 + c;
      BE2NatConcat(a, b');
      var x, p, y := BE2Nat(a), Pow256(|b'|), BE2Nat(b');
      assert Pow256(|b|) == 256 * p;
      Distribute(x, p, y, c);
    }
  }

  lemma Distribute(x: int, p: int, y: int, c: int)
    ensures (x * p + y) * 256 + c == x * (256 * p) + (y * 256 + c)
  {
  }

  /** A numeral with only zero digits reads as 0, any other as at least 1. */
  lemma {:induction false} BE2NatZero(s: seq<byte>)
    ensures BE2Nat(s) == 0 <==> forall i :: 0 <= i < |s| ==> s[i] == 0
  {
    if s != [] {
      BE2NatZero(s[..|s| - 1]);
      assert forall i :: 0 <= i < |s| - 1 ==> s[..|s| - 1][i] == s[i];
    }
  }

  /** The k low-order base-256 digits of u, most significant first
      (encoding/binary.BigEndian for a k-byte unsigned value). */
  function BigEndian(u: nat, k: nat): (s: seq<byte>)
    ensures |s| == k
  {
    if k == 0 then [] else BigEndian(u / 256, k - 1) + [(u % 256) as byte]
  }

  lemma ModOfSum(u: int, m: int, q: int, r: int)
    requires m > 0 && u == m * q + r && 0 <= r < m
    ensures u % m == r && u / m == q
  {
    var d := u / m - q;
    assert m * d == r - u % m by {
      assert u == m * (u / m) + u % m;
      assert m * (u / m) - m * q == m * d;
    }
  }

  /** Peeling off the last base-256 digit. */
  lemma DigitStep(u: nat, p: nat)
    requires p >= 1
    ensures ((u / 256) % p) * 256 + u % 256 == u % (256 * p)
  {
    var q, r := u / 256, u % 256;
    assert u == 256 * q + r;
    assert q == p * (q / p) + q % p;
    assert u == (256 * p) * (q / p) + ((q % p) * 256 + r);
    assert q % p <= p - 1;
    assert (q % p) * 256 <= (p - 1) * 256;
    ModOfSum(u, 256 * p, q / p, (q % p) * 256 + r);
  }

  /** Decoding an encoding gives the value back, reduced modulo 256^k. */
  lemma {:induction false} BigEndianRoundTrip(u: nat, k: nat)
    ensures BE2Nat(BigEndian(u, k)) == u % Pow256(k)
  {
    if k > 0 {
      var s := BigEndian(u, k);
      assert s[..k - 1] == BigEndian(u / 256, k - 1);
      BigEndianRoundTrip(u / 256, k - 1);
      assert BE2Nat(s) == ((u / 256) % Pow256(k - 1)) * 256 + u % 256;
      DigitStep(u, Pow256(k - 1));
    }
  }

  /** Encoding the reading of a k-byte numeral gives the numeral back. */
  lemma {:induction false} BigEndianOfBE2Nat(s: seq<byte>)
    ensures BigEndian(BE2Nat(s), |s|) == s
  {
    if s != [] {
      var init := s[..|s| - 1];
      var n := BE2Nat(s);
      assert n / 256 == BE2Nat(init) && n % 256 == s[|s| - 1] as nat by {
        ModOfSum(n, 256, BE2Nat(init), s[|s| - 1] as nat);
      }
      BigEndianOfBE2Nat(init);
      assert s == init + [s[|s| - 1]];
    }
  }

  /** Go's []byte(str), left uninterpreted: Go strings are already byte
      strings, so this is some fixed encoding of each string. */
  const StringBytesTable: imap<string, seq<byte>>

  function StringBytes(str: string): seq<byte> {
    if str in StringBytesTable then StringBytesTable[str] else []
  }
}
