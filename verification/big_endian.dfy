/**
 Big-endian byte order, as provided by Go's `encoding/binary.BigEndian`.
 `ToBytes` and `FromBytes` work for any width; `PutUint64` and `Uint64` are
 the 8-byte instances the shard queue uses to turn integers into routing bytes.
 */
module BigEndian {
  import opened GoTypes

  function Pow256(k: nat): (p: nat)
    ensures p > 0
  {
    if k == 0 then 1 else 256 * Pow256(k - 1)
  }

  lemma Pow256Eight()
    ensures Pow256(8) == TwoTo64
  {
    assert Pow256(2) == 0x1_0000;
    assert Pow256(4) == 0x1_0000_0000 by {
      assert Pow256(3) == 256 * Pow256(2);
    }
    assert Pow256(6) == 0x1_0000_0000_0000 by {
      assert Pow256(5) == 256 * Pow256(4);
    }
    assert Pow256(8) == TwoTo64 by {
      assert Pow256(7) == 256 * Pow256(6);
    }
  }

  /** The `k` low-order bytes of `n`, most significant byte first. */
  function ToBytes(n: nat, k: nat): (r: seq<byte>)
    ensures |r| == k
  {
    if k == 0 then [] else ToBytes(n / 256, k - 1) + [(n % 256) as byte]
  }

  /** The unsigned number whose big-endian representation is `s`. */
  function FromBytes(s: seq<byte>): (n: nat)
    ensures n < Pow256(|s|)
  {
    if |s| == 0 then 0 else FromBytes(s[..|s| - 1]) * 256 + s[|s| - 1] as nat
  }

  /** Dropping the last byte of a base-256 number and then taking `p` digits
      is the same as taking `256 * p` digits and dropping the last one. */
  lemma ModShift(n: nat, p: nat)
    requires p > 0
    ensures (n / 256 % p) * 256 + n % 256 == n % (256 * p)
    ensures n / 256 / p == n / (256 * p)
  {
    var q, b := n / 256 / p, n / 256 % p;
    assert n / 256 == q * p + b;
    assert n == (q * p + b) * 256 + n % 256;
    assert n == q * (256 * p) + (b * 256 + n % 256);
    DivModUnique(n, 256 * p, q, b * 256 + n % 256);
  }

  /** Byte `i` of the encoding is digit `k - 1 - i` of `n` in base 256: the
      most significant digit comes first. */
  lemma {:induction false} ToBytesDigit(n: nat, k: nat, i: nat)
    requires i < k
    ensures ToBytes(n, k)[i] as nat == n / Pow256(k - 1 - i) % 256
  {
    if i < k - 1 {
      ToBytesDigit(n / 256, k - 1, i);
      ModShift(n, Pow256(k - 2 - i));
      assert Pow256(k - 1 - i) == 256 * Pow256(k - 2 - i);
    }
  }

  /** Decoding an encoding recovers the encoded number modulo the width. */
  lemma {:induction false} FromToBytes(n: nat, k: nat)
    ensures FromBytes(ToBytes(n, k)) == n % Pow256(k)
  {
    if k > 0 {
      var s := ToBytes(n, k);
      assert s[..k - 1] == ToBytes(n / 256, k - 1);
      FromToBytes(n / 256, k - 1);
      ModShift(n, Pow256(k - 1));
    }
  }

  /** Encoding a decoded sequence at its own width gives the sequence back. */
  lemma {:induction false} ToFromBytes(s: seq<byte>)
    ensures ToBytes(FromBytes(s), |s|) == s
  {
    if |s| > 0 {
      var init, last := s[..|s| - 1], s[|s| - 1];
      var n := FromBytes(s);
      DivModUnique(n, 256, FromBytes(init), last as int);
      ToFromBytes(init);
      assert s == init + [last];
    }
  }

  /** `binary.BigEndian.PutUint64`: the 8-byte big-endian form of `v`. */
  function PutUint64(v: uint64): (r: seq<byte>)
    ensures |r| == 8
  {
    ToBytes(v as nat, 8)
  }

  /** `binary.BigEndian.Uint64`: reads 8 big-endian bytes. */
  function Uint64(b: seq<byte>): (v: uint64)
    requires |b| == 8
  {
    Pow256Eight();
    FromBytes(b) as uint64
  }

  /** `PutUint64` stores the most significant byte first: byte `i` holds
      bits `8 * (7 - i)` to `8 * (7 - i) + 7` of `v`. */
  lemma PutUint64Digits(v: uint64, i: nat)
    requires i < 8
    ensures PutUint64(v)[i] as nat == v as nat / Pow256(7 - i) % 256
  {
    ToBytesDigit(v as nat, 8, i);
  }

  /** Reading back what `PutUint64` wrote gives the original value. */
  lemma Uint64OfPutUint64(v: uint64)
    ensures Uint64(PutUint64(v)) == v
  {
    FromToBytes(v as nat, 8);
    Pow256Eight();
  }

  /** Every 8-byte sequence is the encoding of exactly the value it reads as,
      so `PutUint64` is a bijection onto 8-byte sequences. */
  lemma PutUint64OfUint64(b: seq<byte>)
    requires |b| == 8
    ensures PutUint64(Uint64(b)) == b
  {
    ToFromBytes(b);
  }

  /** Distinct values have distinct encodings. */
  lemma PutUint64Injective(v: uint64, w: uint64)
    ensures PutUint64(v) == PutUint64(w) <==> v == w
  {
    Uint64OfPutUint64(v);
    Uint64OfPutUint64(w);
  }
}
