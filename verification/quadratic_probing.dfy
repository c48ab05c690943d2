/** Quadratic probing: the i-th probe for `key` is `(h(key) + c1*i + c2*i^2) mod m`,
    with positive constants fixed at construction. Full coverage of the buckets is not
    promised and is not claimed here. */
module QuadraticProbing {
  import opened CSharpInt
  import opened Outcome
  import opened HashStrategy

  /** A quadratic-probing strategy: one injected hash strategy and the constants. */
  datatype Strategy<!K> = Strategy(hash: HashIndex<K>, c1: int32, c2: int32)

  /** The constructor: `c1` and then `c2` must be positive. */
  function New<K(!new)>(hash: HashIndex<K>, c1: int32, c2: int32): (r: Result<Strategy<K>>)
    ensures r.Ok? <==> c1 > 0 && c2 > 0
    ensures c1 <= 0 ==> r.error == ArgumentOutOfRange("c1")
    ensures c1 > 0 && c2 <= 0 ==> r.error == ArgumentOutOfRange("c2")
    ensures r.Ok? ==> r.value.c1 == c1 && r.value.c2 == c2 && r.value.hash == hash
  {
    if c1 <= 0 then Err(ArgumentOutOfRange("c1"))
    else if c2 <= 0 then Err(ArgumentOutOfRange("c2"))
    else Ok(Strategy(hash, c1, c2))
  }

  /** The probe offset `(long)c1 * i + (long)c2 * i * i` as C# evaluates it: every
      `long` multiplication and addition wraps modulo 2^64. */
  function OffsetAsWritten(c1: int32, c2: int32, i: int32): (r: int64)
    ensures c1 > 0 && c2 > 0 && i >= 0 && c1 * i + c2 * i * i <= INT64_MAX ==>
      r == c1 * i + c2 * i * i
  {
    OffsetTermsFit(c1, c2, i);
    WrapInt64(WrapInt64(c1 * i) + WrapInt64(WrapInt64(c2 * i) * i))
  }

  /** When the whole offset fits in a `long`, so does each of its terms. */
  lemma OffsetTermsFit(c1: int32, c2: int32, i: int32)
    ensures c1 > 0 && c2 > 0 && i >= 0 && c1 * i + c2 * i * i <= INT64_MAX ==>
      && 0 <= c1 * i <= INT64_MAX
      && 0 <= c2 * i <= INT64_MAX
      && 0 <= c2 * i * i <= INT64_MAX
  {
    if c1 > 0 && c2 > 0 && i >= 0 {
      OffsetTermsNonNegative(c1, c2, i);
      MulBounds(c2, i, INT32_MAX, INT32_MAX);
    }
  }

  /** `Index` exactly as the C# code computes it: the offset and `baseIdx + offset`
      wrap modulo 2^64, and `%` truncates toward zero. */
  function IndexAsWritten<K(!new)>(s: Strategy<K>, key: K, i: int32, capacity: int32): (r: Result<int32>)
    ensures r.Err? <== !(capacity > 0 && 0 <= i < capacity)
    ensures capacity <= 0 ==> r == Err(ArgumentOutOfRange("capacity"))
    ensures capacity > 0 && !(0 <= i < capacity) ==> r == Err(ArgumentOutOfRange("i"))
    ensures r.Ok? ==> -capacity < r.value < capacity
  {
    var _ :- CheckArguments(i, capacity);
    var baseIdx :- s.hash(key, capacity);
    var offset := OffsetAsWritten(s.c1, s.c2, i);
    Ok(Rem(WrapInt64(baseIdx + offset), capacity))
  }

  /** `Index` with the offset computed exactly, as the formula intends. */
  function Index<K(!new)>(s: Strategy<K>, key: K, i: int32, capacity: int32): (r: Result<int32>)
    ensures r.Err? <== !(capacity > 0 && 0 <= i < capacity)
    ensures capacity <= 0 ==> r == Err(ArgumentOutOfRange("capacity"))
    ensures capacity > 0 && !(0 <= i < capacity) ==> r == Err(ArgumentOutOfRange("i"))
    ensures Satisfies(s.hash) && s.c1 > 0 && s.c2 > 0 && capacity > 0 && 0 <= i < capacity ==>
      r.Ok? && 0 <= r.value < capacity &&
      r.value == (s.hash(key, capacity).value + s.c1 * i + s.c2 * i * i) % capacity
  {
    var _ :- CheckArguments(i, capacity);
    var baseIdx :- s.hash(key, capacity);
    OffsetTermsNonNegative(s.c1, s.c2, i);
    Ok(Rem(baseIdx + s.c1 * i + s.c2 * i * i, capacity))
  }

  /** With positive constants and a non-negative attempt both offset terms are non-negative. */
  lemma OffsetTermsNonNegative(c1: int32, c2: int32, i: int32)
    ensures c1 > 0 && c2 > 0 && i >= 0 ==> 0 <= c1 * i && 0 <= c2 * i && 0 <= c2 * i * i
  {
    if c1 > 0 && c2 > 0 && i >= 0 {
      MulBounds(c1, i, c1, i);
      MulBounds(c2, i, c2, i);
      MulBounds(c2 * i, i, c2 * i, i);
    }
  }

  /** The first probe is the hash strategy's own bucket. */
  lemma FirstProbeIsBase<K(!new)>(s: Strategy<K>, key: K, capacity: int32)
    requires Satisfies(s.hash)
    requires capacity > 0
    ensures Index(s, key, 0, capacity) == s.hash(key, capacity)
    ensures IndexAsWritten(s, key, 0, capacity) == s.hash(key, capacity)
  {
    assert CheckArguments(0, capacity).Ok?;
    var h := s.hash(key, capacity);
    assert h.Ok? && 0 <= h.value < capacity;
    assert s.c1 * 0 == 0 && s.c2 * 0 * 0 == 0;
    var offset := OffsetAsWritten(s.c1, s.c2, 0);
    assert offset == 0;
    var wrapped := WrapInt64(h.value + offset);
    assert wrapped == h.value;
    assert (h.value - h.value) % capacity == 0;
    ModUnique(h.value, capacity, h.value);
    assert Rem(h.value, capacity) == h.value;
  }

  /** Whenever `baseIdx + offset` fits in a `long` the code computes the intended probe.
      With `c2 == 1` this holds for every `c1` and every valid `i`. */
  lemma AsWrittenAgreesWithoutOverflow<K(!new)>(s: Strategy<K>, key: K, i: int32, capacity: int32)
    requires Satisfies(s.hash)
    requires s.c1 > 0 && s.c2 > 0
    requires 0 <= i < capacity
    requires s.hash(key, capacity).value + s.c1 * i + s.c2 * i * i <= INT64_MAX
    ensures IndexAsWritten(s, key, i, capacity) == Index(s, key, i, capacity)
  {
    OffsetTermsNonNegative(s.c1, s.c2, i);
  }
}

/** The quadratic-probing overflow exhibited on the division method. */
module QuadraticProbingOverflow {
  import opened CSharpInt
  import opened Outcome
  import DivisionHash
  import opened QuadraticProbing

  const Wide: Strategy<int32> := Strategy(DivisionHash.Index, 1, 0x4000_0000)

  /** Capacity 2^17, `c1 = 1`, `c2 = 2^30`, key 0 and the last attempt `i = 2^17 - 1`:
      `c2 * i * i` passes 2^63 and wraps, and the code returns bucket -1 where the
      formula gives bucket 2^17 - 1. */
  lemma AsWrittenLeavesRange()
    ensures IndexAsWritten(Wide, 0, 0x1_FFFF, 0x2_0000) == Ok(-1)
    ensures Index(Wide, 0, 0x1_FFFF, 0x2_0000) == Ok(0x1_FFFF)
  {
  }
}
