/** Knuth's multiplicative method, generalised to any positive capacity:
    `r0` is the low 32 bits of `key * S`, and the bucket is `floor(r0 * m / 2^32)`. */
module MultiplicationHash {
  import opened CSharpInt
  import opened Outcome
  import opened HashStrategy

  /** `floor(A * 2^32)` with `A = (sqrt(5) - 1) / 2`. */
  const S: uint32 := 2654435769

  /** `S` is odd and is the integer part of `A * 2^32`: with `x = 2S + 2^32`,
      `x^2 <= 5 * 2^64 < (x + 2)^2`, i.e. `S <= A * 2^32 < S + 1`. */
  lemma KnuthConstant()
    ensures S % 2 == 1
    ensures (2 * S + TWO_32) * (2 * S + TWO_32) <= 5 * TWO_64
    ensures 5 * TWO_64 < (2 * S + 2 + TWO_32) * (2 * S + 2 + TWO_32)
  {
  }

  /** `r0 = (uint)((ulong)(uint)key * S)`: the 64-bit product never wraps, so `r0`
      is the product reduced modulo 2^32. */
  function LowBits(key: int32): (r0: uint32)
    ensures r0 == (ToUInt32(key) * S) % TWO_32
  {
    var wide := ToUInt32(key) * S;
    assert wide < TWO_64 by {
      MulBounds(ToUInt32(key), S, TWO_32 - 1, S);
    }
    ToUInt32(ToUInt64(wide))
  }

  /** `(int)(((ulong)r0 * (ulong)capacity) >> 32)`. Both factors are below 2^32, so the
      product fits in 64 bits and the shift is exact division by 2^32; the result is
      `floor(r0 * capacity / 2^32)`, a bucket index. */
  function Index(key: int32, capacity: int32): (r: Result<int32>)
    ensures r.Err? <==> capacity <= 0
    ensures r.Err? ==> r.error == ArgumentOutOfRange("capacity")
    ensures r.Ok? ==> r.value == (LowBits(key) * capacity) / TWO_32
    ensures r.Ok? ==> 0 <= r.value < capacity
  {
    if capacity <= 0 then
      Err(ArgumentOutOfRange("capacity"))
    else
      var r0 := LowBits(key);
      var product := r0 * ToUInt64(capacity);
      ProductBounds(r0, capacity);
      Ok(WrapInt32(ToUInt64(product) / TWO_32))
  }

  /** For `r0 < 2^32` and `0 < capacity <= int.MaxValue` the product stays below 2^63,
      and shifting it right by 32 leaves a value below `capacity`. */
  lemma ProductBounds(r0: uint32, capacity: int32)
    requires capacity > 0
    ensures 0 <= r0 * capacity < TWO_64 / 2
    ensures 0 <= (r0 * capacity) / TWO_32 < capacity
  {
    MulBounds(r0, capacity, TWO_32 - 1, capacity);
    MulStrict(r0, TWO_32, capacity);
    assert r0 * capacity < capacity * TWO_32;
    MulBounds(capacity, TWO_32, INT32_MAX, TWO_32);
  }

  /** The multiplicative method meets the interface contract. */
  lemma SatisfiesContract()
    ensures Satisfies(Index)
  {
  }

  /** Key 0 always lands in bucket 0. */
  lemma ZeroKeyToFirstBucket(capacity: int32)
    requires capacity > 0
    ensures Index(0, capacity) == Ok(0)
  {
  }

  /** With a single bucket every key lands in it. */
  lemma SingleBucket(key: int32)
    ensures Index(key, 1) == Ok(0)
  {
  }
}
