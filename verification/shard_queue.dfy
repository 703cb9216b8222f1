/**
 The routing half of the shard queue: a routing key of some Go dynamic type is
 turned into bytes (`convertKeyToBytes`), the bytes are hashed with FNV-1a
 (`hashKeyToShard`), and the hash picks one of `numShard` worker queues
 (`Shard`). Channels and workers are not part of this module.
 */
module ShardQueue {
  import opened GoTypes
  import BigEndian
  import Fnv

  /** A routing key, one constructor per case of the type switch in
      `convertKeyToBytes`. Go strings are immutable byte sequences, so a
      string key is given by its bytes. `int` and `uint` are 64 bits wide. */
  datatype Key =
    | BytesKey(bytes: seq<byte>)
    | StringKey(contents: seq<byte>)
    | IntKey(i: int64)
    | Int32Key(i32: int32)
    | Int64Key(i64: int64)
    | UintKey(u: uint64)
    | Uint32Key(u32: uint32)
    | Uint64Key(u64: uint64)
      /** `math.Float64bits(v)` of a float64 key */
    | Float64Key(bits64: uint64)
      /** `math.Float64bits(float64(v))` of a float32 key */
    | Float32Key(widenedBits: uint64)
      /** a key of any other dynamic type (bool, int8, a struct, nil, ...) */
    | OtherKey(typeName: string)
  {
    predicate IsInteger()
    {
      IntKey? || Int32Key? || Int64Key? || UintKey? || Uint32Key? || Uint64Key?
    }

    /** The mathematical value of an integer key. */
    function IntegerValue(): int
      requires IsInteger()
    {
      match this
      case IntKey(i) => i as int
      case Int32Key(i) => i as int
      case Int64Key(i) => i as int
      case UintKey(u) => u as int
      case Uint32Key(u) => u as int
      case Uint64Key(u) => u as int
    }
  }

  /** The bytes of an ASCII string (its UTF-8 encoding). */
  function Ascii(s: string): (r: seq<byte>)
    requires forall i :: 0 <= i < |s| ==> s[i] as int < 128
    ensures |r| == |s|
  {
    seq(|s|, i requires 0 <= i < |s| => s[i] as int as byte)
  }

  /** The routing bytes used for keys of an unsupported type. */
  const DefaultRoutingKey: seq<byte> := Ascii("defaultRoutingKey")

  /** `intToBytes`: the 8-byte big-endian two's complement form of `n`. */
  function IntToBytes(n: int64): (r: seq<byte>)
    ensures |r| == 8
    ensures BigEndian.FromBytes(r) == n as int % TwoTo64
    ensures Int64FromUint64(BigEndian.Uint64(r)) == n
  {
    var u := Uint64FromInt64(n);
    BigEndian.Uint64OfPutUint64(u);
    BigEndian.FromToBytes(u as nat, 8);
    BigEndian.Pow256Eight();
    Int64Uint64Inverse(n, u);
    BigEndian.PutUint64(u)
  }

  /** `uintToBytes`: the 8-byte big-endian form of `n`. */
  function UintToBytes(n: uint64): (r: seq<byte>)
    ensures |r| == 8
    ensures BigEndian.FromBytes(r) == n as int
    ensures BigEndian.Uint64(r) == n
  {
    BigEndian.Uint64OfPutUint64(n);
    BigEndian.PutUint64(n)
  }

  /** `convertKeyToBytes`: integer and float keys become 8 bytes, byte and
      string keys are used as they are, everything else becomes the default
      routing key. */
  function ConvertKeyToBytes(key: Key): (r: seq<byte>)
    ensures key.IsInteger() || key.Float64Key? || key.Float32Key? ==> |r| == 8
    ensures key.BytesKey? ==> r == key.bytes
    ensures key.StringKey? ==> r == key.contents
    ensures key.OtherKey? ==> r == DefaultRoutingKey
  {
    match key
    case BytesKey(b) => b
    case StringKey(s) => s
    case IntKey(i) => IntToBytes(i)
    case Int32Key(i) => IntToBytes(i as int as int64)
    case Int64Key(i) => IntToBytes(i)
    case UintKey(u) => UintToBytes(u)
    case Uint32Key(u) => UintToBytes(u as int as uint64)
    case Uint64Key(u) => UintToBytes(u)
    case Float64Key(bits) => UintToBytes(bits)
    case Float32Key(bits) => UintToBytes(bits)
    case OtherKey(_) => DefaultRoutingKey
  }

  /** An integer key of any width and signedness becomes the 8 bytes that
      read back, big-endian, as its value modulo 2^64 (two's complement for
      negative values). */
  lemma IntegerKeyEncoding(key: Key)
    requires key.IsInteger()
    ensures |ConvertKeyToBytes(key)| == 8
    ensures BigEndian.FromBytes(ConvertKeyToBytes(key)) == key.IntegerValue() % TwoTo64
  {
    match key
    case IntKey(i) =>
    case Int32Key(i) =>
    case Int64Key(i) =>
    case UintKey(u) => Reduced(u as int);
    case Uint32Key(u) => Reduced(u as int);
    case Uint64Key(u) => Reduced(u as int);
  }

  lemma Reduced(x: int)
    requires 0 <= x < TwoTo64
    ensures x % TwoTo64 == x
  {
  }

  /** A float key becomes the 8 big-endian bytes of its IEEE-754 bit pattern. */
  lemma FloatKeyEncoding(key: Key)
    requires key.Float64Key? || key.Float32Key?
    ensures |ConvertKeyToBytes(key)| == 8
    ensures BigEndian.FromBytes(ConvertKeyToBytes(key)) ==
      if key.Float64Key? then key.bits64 as int else key.widenedBits as int
  {
  }

  /** `hashKeyToShard`: the FNV-1a hash of the key, reduced by Go's `%`.
      `int(h.Sum32())` is non-negative (int is 64 bits), so the shard lies in
      [0, |numShard|); a zero `numShard` is a division-by-zero panic. */
  function HashKeyToShard(key: seq<byte>, numShard: int): (r: int)
    requires numShard != 0
    ensures 0 <= r < Abs(numShard)
    ensures r == Fnv.Sum32a(key) as int % Abs(numShard)
  {
    var h := Fnv.Sum32a(key) as int;
    GoRem(h, numShard)
  }

  /** A shard queue: `numShard` worker queues, each buffering `queueSize`
      messages. */
  datatype Shardqueue = Shardqueue(numShard: int, queueSize: int)

  /** The index of the worker queue `Shard` sends a message with this routing
      key to. With `numShard` queues the index is always a valid one; a
      queue with no shards panics on the `%`. */
  function ShardOf(sq: Shardqueue, routingKey: Key): (r: int)
    requires sq.numShard > 0
    ensures 0 <= r < sq.numShard
  {
    HashKeyToShard(ConvertKeyToBytes(routingKey), sq.numShard)
  }

  /** The empty key hashes to the offset basis. */
  lemma EmptyKeyShard(numShard: int)
    requires numShard > 0
    ensures HashKeyToShard([], numShard) == 2166136261 % numShard
  {
  }

  /** Two integer keys, of any widths and signedness, produce the same bytes
      exactly when their values agree modulo 2^64. */
  lemma IntegerKeyBytesAgree(k1: Key, k2: Key)
    requires k1.IsInteger() && k2.IsInteger()
    ensures ConvertKeyToBytes(k1) == ConvertKeyToBytes(k2)
        <==> k1.IntegerValue() % TwoTo64 == k2.IntegerValue() % TwoTo64
  {
    var b1, b2 := ConvertKeyToBytes(k1), ConvertKeyToBytes(k2);
    IntegerKeyEncoding(k1);
    IntegerKeyEncoding(k2);
    if k1.IntegerValue() % TwoTo64 == k2.IntegerValue() % TwoTo64 {
      BigEndian.ToFromBytes(b1);
      BigEndian.ToFromBytes(b2);
    }
  }

  /** `int`, `int32` and `int64` keys holding the same value are routed alike,
      and so are `uint`, `uint32` and `uint64` keys. */
  lemma IntegerWidthsAgree(sq: Shardqueue, v: int32, w: uint32, n: int64, u: uint64)
    requires sq.numShard > 0
    ensures ConvertKeyToBytes(IntKey(n)) == ConvertKeyToBytes(Int64Key(n))
    ensures ShardOf(sq, IntKey(n)) == ShardOf(sq, Int64Key(n))
    ensures ConvertKeyToBytes(UintKey(u)) == ConvertKeyToBytes(Uint64Key(u))
    ensures ShardOf(sq, UintKey(u)) == ShardOf(sq, Uint64Key(u))
    ensures ConvertKeyToBytes(Int32Key(v)) == ConvertKeyToBytes(IntKey(v as int as int64))
    ensures ConvertKeyToBytes(Int32Key(v)) == ConvertKeyToBytes(Int64Key(v as int as int64))
    ensures ShardOf(sq, Int32Key(v)) == ShardOf(sq, Int64Key(v as int as int64))
    ensures ConvertKeyToBytes(Uint32Key(w)) == ConvertKeyToBytes(UintKey(w as int as uint64))
    ensures ConvertKeyToBytes(Uint32Key(w)) == ConvertKeyToBytes(Uint64Key(w as int as uint64))
    ensures ShardOf(sq, Uint32Key(w)) == ShardOf(sq, Uint64Key(w as int as uint64))
  {
  }

  /** A negative signed key shares its bytes, and so its shard, with the
      unsigned key of the same bit pattern: -1 and 2^64 - 1 collide. */
  lemma SignedUnsignedCollide(sq: Shardqueue, n: int64)
    requires sq.numShard > 0
    ensures ConvertKeyToBytes(Int64Key(n)) == ConvertKeyToBytes(Uint64Key(Uint64FromInt64(n)))
    ensures ShardOf(sq, Int64Key(n)) == ShardOf(sq, Uint64Key(Uint64FromInt64(n)))
  {
    IntegerKeyBytesAgree(Int64Key(n), Uint64Key(Uint64FromInt64(n)));
  }

  /** Integer keys of different values produce different bytes. */
  lemma IntToBytesInjective(n: int64, m: int64)
    ensures IntToBytes(n) == IntToBytes(m) <==> n == m
  {
  }

  /** A string key and a byte-slice key with the same contents are routed to
      the same shard. */
  lemma StringAndBytesAgree(sq: Shardqueue, s: seq<byte>)
    requires sq.numShard > 0
    ensures ConvertKeyToBytes(StringKey(s)) == ConvertKeyToBytes(BytesKey(s))
    ensures ShardOf(sq, StringKey(s)) == ShardOf(sq, BytesKey(s))
  {
  }

  /** All keys of unsupported types go to one fixed shard, which is also the
      shard of the string key "defaultRoutingKey". */
  lemma UnsupportedKeysShareShard(sq: Shardqueue, t1: string, t2: string)
    requires sq.numShard > 0
    ensures ShardOf(sq, OtherKey(t1)) == ShardOf(sq, OtherKey(t2))
    ensures ShardOf(sq, OtherKey(t1)) == ShardOf(sq, StringKey(DefaultRoutingKey))
    ensures ShardOf(sq, OtherKey(t1)) == Fnv.Sum32a(DefaultRoutingKey) as int % sq.numShard
  {
  }

  /** The shard depends only on the routing key's bytes and the number of
      shards, not on the buffer size or on anything else about the queue. */
  lemma ShardDependsOnlyOnKeyBytes(sq1: Shardqueue, sq2: Shardqueue, k1: Key, k2: Key)
    requires sq1.numShard == sq2.numShard > 0
    requires ConvertKeyToBytes(k1) == ConvertKeyToBytes(k2)
    ensures ShardOf(sq1, k1) == ShardOf(sq2, k2)
  {
  }
}
