/**
 The 32-bit FNV-1a hash, as computed by Go's `hash/fnv.New32a`. The state is
 a 32-bit word; each byte is xor-ed into the state and the state is then
 multiplied by the FNV prime. Arithmetic on `bv32` wraps modulo 2^32, which is
 exactly the uint32 overflow behaviour of the Go implementation.
 */
module Fnv {
  import opened GoTypes

  const OffsetBasis32: bv32 := 2166136261
  const Prime32: bv32 := 16777619

  /** One FNV-1a round: xor the byte in, then multiply. */
  function Round(h: bv32, b: byte): bv32
  {
    (h ^ (b as bv32)) * Prime32
  }

  /** The state reached by writing `data` into a hasher whose state is `h`. */
  function Absorb(h: bv32, data: seq<byte>): bv32
    decreases |data|
  {
    if |data| == 0 then h else Absorb(Round(h, data[0]), data[1..])
  }

  /** `Sum32` of a fresh FNV-1a hasher after writing `data`. */
  function Sum32a(data: seq<byte>): bv32
  {
    Absorb(OffsetBasis32, data)
  }

  /** Writing `a` and then `b` leaves the hasher in the same state as writing
      `a + b` at once: the hash can be fed in chunks. */
  lemma {:induction false} AbsorbConcat(h: bv32, a: seq<byte>, b: seq<byte>)
    ensures Absorb(h, a + b) == Absorb(Absorb(h, a), b)
    decreases |a|
  {
    if |a| > 0 {
      assert (a + b)[0] == a[0] && (a + b)[1..] == a[1..] + b;
      AbsorbConcat(Round(h, a[0]), a[1..], b);
    } else {
      assert a + b == b;
    }
  }

  /** Appending one byte applies one more round to the previous hash. */
  lemma SumSnoc(data: seq<byte>, b: byte)
    ensures Sum32a(data + [b]) == Round(Sum32a(data), b)
  {
    AbsorbConcat(OffsetBasis32, data, [b]);
  }

  /** The reference values of the FNV-1a 32-bit test suite for "", "a", "ab"
      and "abc". */
  lemma KnownAnswers()
    ensures Sum32a([]) == 0x811c9dc5
    ensures Sum32a([97]) == 0xe40c292c
    ensures Sum32a([97, 98]) == 0x4d2505ca
    ensures Sum32a([97, 98, 99]) == 0x1a47e90b
  {
    SumSnoc([], 97);
    SumSnoc([97], 98);
    assert [97 as byte] + [98 as byte] == [97, 98];
    SumSnoc([97, 98], 99);
    assert [97 as byte, 98] + [99 as byte] == [97, 98, 99];
  }

  /** The hasher's `Write` loop followed by `Sum32`: one round per byte, in
      order, starting from the offset basis. */
  method Hash32a(data: seq<byte>) returns (sum: bv32)
    ensures sum == Sum32a(data)
  {
    sum := OffsetBasis32;
    var i := 0;
    while i < |data|
      invariant 0 <= i <= |data|
      invariant Absorb(sum, data[i..]) == Sum32a(data)
    {
      assert data[i..][1..] == data[i + 1..];
      sum := Round(sum, data[i]);
      i := i + 1;
    }
  }
}
