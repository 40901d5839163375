/** Fixed-width integers, the 8-byte big-endian score codec (`I2b`/`B2i`), the
    bucket-name prefixes and the overflow-checked increment shared by every collection. */
module Utils {
  import opened Bytes
  import opened Results

  /** SCORE_MAX_SIZE: the largest uint64. */
  const ScoreMax: int := 0xFFFF_FFFF_FFFF_FFFF
  /** SCORE_MIN_SIZE. */
  const ScoreMin: int := 0

  type u64 = x: int | 0 <= x <= 0xFFFF_FFFF_FFFF_FFFF
  type i64 = x: int | -0x8000_0000_0000_0000 <= x <= 0x7FFF_FFFF_FFFF_FFFF

  /** Bucket-name tags, one per structure kind. */
  const HashMapPrefix: byte := 0x30
  const ZsetKeyPrefix: byte := 31
  const ZsetScorePrefix: byte := 29
  const HsetBucketPrefix: byte := 0x28

  /** A collection's bucket name: its kind's prefix byte followed by the collection's name. */
  function BucketName(prefix: byte, name: Bytes): Bytes {
    [prefix] + name
  }

  /** Bucket names of different kinds or different collections never collide. */
  lemma BucketNamesDistinct(p: byte, a: Bytes, q: byte, b: Bytes)
    ensures BucketName(p, a) == BucketName(q, b) <==> p == q && a == b
  {
    if BucketName(p, a) == BucketName(q, b) {
      assert BucketName(p, a)[0] == p && BucketName(q, b)[0] == q;
      assert a == BucketName(p, a)[1..] && b == BucketName(q, b)[1..];
    }
  }

  function Pow256(n: nat): (r: nat)
    ensures r >= 1
  {
    if n == 0 then 1 else 256 * Pow256(n - 1)
  }

  /** The natural number a byte string denotes, most significant byte first. */
  function BigEndian(s: Bytes): (v: nat)
    ensures v < Pow256(|s|)
    decreases |s|
  {
    if s == [] then 0 else BigEndian(s[..|s| - 1]) * 256 + s[|s| - 1]
  }

  /** The low `width` bytes of `n`, most significant first (`binary.BigEndian.PutUint64` for width 8). */
  function FixedBigEndian(n: nat, width: nat): (r: Bytes)
    ensures |r| == width
  {
    if width == 0 then [] else FixedBigEndian(n / 256, width - 1) + [n % 256]
  }

  lemma {:induction false} FixedBigEndianValue(n: nat, width: nat)
    requires n < Pow256(width)
    ensures BigEndian(FixedBigEndian(n, width)) == n
  {
    if width > 0 {
      var p := FixedBigEndian(n / 256, width - 1);
      FixedBigEndianValue(n / 256, width - 1);
      assert (p + [n % 256])[..|p|] == p;
    }
  }

  lemma {:induction false} BigEndianFixed(s: Bytes)
    ensures FixedBigEndian(BigEndian(s), |s|) == s
    decreases |s|
  {
    if s != [] {
      var init := s[..|s| - 1];
      BigEndianFixed(init);
      var v := BigEndian(s);
      assert v / 256 == BigEndian(init) && v % 256 == s[|s| - 1];
      assert s == init + [s[|s| - 1]];
    }
  }

  /** Fixed-width big-endian encoding turns numeric order into `bytes.Compare` order. */
  lemma {:induction false} FixedBigEndianOrder(a: nat, b: nat, width: nat)
    requires a < Pow256(width) && b < Pow256(width)
    ensures Compare(FixedBigEndian(a, width), FixedBigEndian(b, width))
            == if a < b then -1 else if a == b then 0 else 1
  {
    if width > 0 {
      var pa := FixedBigEndian(a / 256, width - 1);
      var pb := FixedBigEndian(b / 256, width - 1);
      FixedBigEndianOrder(a / 256, b / 256, width - 1);
      CompareConcat(pa, pb, [a % 256], [b % 256]);
      assert Compare([a % 256], [b % 256]) == if a % 256 < b % 256 then -1 else if a % 256 == b % 256 then 0 else 1 by {
        assert [a % 256][1..] == [] && [b % 256][1..] == [];
      }
    }
  }

  lemma Pow256Eight()
    ensures Pow256(8) == ScoreMax + 1
  {
  }

  /** `utils.I2b`, hashmap's `i2b`: the 8-byte big-endian form of a uint64. */
  function I2b(n: u64): (r: Bytes)
    ensures |r| == 8
  {
    FixedBigEndian(n, 8)
  }

  /** `utils.B2i`, hashmap's `b2i`: the uint64 in the first 8 bytes of `raw`. */
  function B2i(raw: Bytes): (n: u64)
    requires |raw| >= 8
    ensures I2b(n) == raw[..8]
  {
    Pow256Eight();
    BigEndianFixed(raw[..8]);
    BigEndian(raw[..8])
  }

  lemma B2iI2b(n: u64)
    ensures B2i(I2b(n)) == n
  {
    Pow256Eight();
    FixedBigEndianValue(n, 8);
    assert I2b(n)[..8] == I2b(n);
  }

  lemma I2bB2i(raw: Bytes)
    requires |raw| == 8
    ensures I2b(B2i(raw)) == raw
  {
    assert raw[..8] == raw;
    BigEndianFixed(raw);
  }

  /** Scores encoded by `I2b` sort in numeric order. */
  lemma I2bOrder(a: u64, b: u64)
    ensures Below(I2b(a), I2b(b)) <==> a < b
    ensures I2b(a) == I2b(b) <==> a == b
  {
    Pow256Eight();
    FixedBigEndianOrder(a, b, 8);
  }

  /** The overflow-checked `current + step` of every `incr` operation: None is "overflow number".
      Go's `uint64(-step)` is the magnitude of a negative int64 even for its minimum, so it is
      written here as the integer `-step`. */
  function Incremented(current: u64, step: i64): (r: Option<u64>)
    ensures r.Some? <==> ScoreMin <= current + step <= ScoreMax
    ensures r.Some? ==> r.value == current + step
  {
    if step > 0 then
      if ScoreMax - step < current then None else Some(current + step)
    else
      var magnitude: int := -(step as int);
      if magnitude > current then None else Some(current - magnitude)
  }
}
