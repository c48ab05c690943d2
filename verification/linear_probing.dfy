/** Linear probing: the i-th probe for `key` is `(h(key) + i) mod m`. */
module LinearProbing {
  import opened CSharpInt
  import opened Outcome
  import opened HashStrategy

  /** A linear-probing strategy wraps one injected hash strategy. */
  datatype Strategy<!K> = Strategy(hash: HashIndex<K>)

  /** `Index` exactly as the C# code computes it: `baseIdx + i` is an `int` addition,
      which wraps when the sum passes `int.MaxValue` (possible once capacity > 2^30),
      and `%` then truncates toward zero. */
  function IndexAsWritten<K(!new)>(s: Strategy<K>, key: K, i: int32, capacity: int32): (r: Result<int32>)
    ensures r.Err? <== !(capacity > 0 && 0 <= i < capacity)
    ensures capacity <= 0 ==> r == Err(ArgumentOutOfRange("capacity"))
    ensures capacity > 0 && !(0 <= i < capacity) ==> r == Err(ArgumentOutOfRange("i"))
    ensures r.Ok? ==> -capacity < r.value < capacity
  {
    var _ :- CheckArguments(i, capacity);
    var baseIdx :- s.hash(key, capacity);
    Ok(Rem(WrapInt32(baseIdx + i), capacity))
  }

  /** `Index` with the sum `baseIdx + i` computed without wrap-around, as the
      `(base + i) mod m` formula intends. */
  function Index<K(!new)>(s: Strategy<K>, key: K, i: int32, capacity: int32): (r: Result<int32>)
    ensures r.Err? <== !(capacity > 0 && 0 <= i < capacity)
    ensures capacity <= 0 ==> r == Err(ArgumentOutOfRange("capacity"))
    ensures capacity > 0 && !(0 <= i < capacity) ==> r == Err(ArgumentOutOfRange("i"))
    ensures Satisfies(s.hash) && capacity > 0 && 0 <= i < capacity ==>
      r.Ok? && 0 <= r.value < capacity && r.value == (s.hash(key, capacity).value + i) % capacity
  {
    var _ :- CheckArguments(i, capacity);
    var baseIdx :- s.hash(key, capacity);
    Ok(Rem(baseIdx + i, capacity))
  }

  /** The first probe is the hash strategy's own bucket. */
  lemma FirstProbeIsBase<K(!new)>(s: Strategy<K>, key: K, capacity: int32)
    requires Satisfies(s.hash)
    requires capacity > 0
    ensures Index(s, key, 0, capacity) == s.hash(key, capacity)
  {
    var b := s.hash(key, capacity).value;
    ModOfShortRange(b, capacity);
    assert Index(s, key, 0, capacity) == Ok(b);
  }

  /** Each probe is the bucket after the previous one, wrapping at the end. */
  lemma NextProbe<K(!new)>(s: Strategy<K>, key: K, i: int32, capacity: int32)
    requires Satisfies(s.hash)
    requires 0 <= i && i + 1 < capacity
    ensures Index(s, key, i + 1, capacity).value == (Index(s, key, i, capacity).value + 1) % capacity
  {
    var b := s.hash(key, capacity).value;
    ModOfShortRange(b + i, capacity);
    ModOfShortRange(b + i + 1, capacity);
    ModOfShortRange(Index(s, key, i, capacity).value + 1, capacity);
  }

  /** Over `i` in `[0, capacity)` the probes visit every bucket exactly once: distinct
      attempts give distinct buckets, and every bucket is some attempt's. */
  lemma ProbesArePermutation<K(!new)>(s: Strategy<K>, key: K, capacity: int32)
    requires Satisfies(s.hash)
    requires capacity > 0
    ensures forall i: int32, j: int32 :: 0 <= i < capacity && 0 <= j < capacity && i != j ==>
      Index(s, key, i, capacity).value != Index(s, key, j, capacity).value
    ensures forall b :: 0 <= b < capacity ==>
      exists i: int32 :: 0 <= i < capacity && Index(s, key, i, capacity) == Ok(b)
  {
    var h := s.hash(key, capacity).value;
    forall i: int32, j: int32 | 0 <= i < capacity && 0 <= j < capacity && i != j
      ensures Index(s, key, i, capacity).value != Index(s, key, j, capacity).value
    {
      ModOfShortRange(h + i, capacity);
      ModOfShortRange(h + j, capacity);
    }
    forall b | 0 <= b < capacity
      ensures exists i: int32 :: 0 <= i < capacity && Index(s, key, i, capacity) == Ok(b)
    {
      var i: int32 := if b >= h then b - h else b - h + capacity;
      ModOfShortRange(h + i, capacity);
      assert Index(s, key, i, capacity) == Ok(b);
    }
  }

  /** Without wrap-around the code computes the intended probe: once capacity is at
      most 2^30, `baseIdx + i` stays below `int.MaxValue`. */
  lemma AsWrittenAgreesBelowLimit<K(!new)>(s: Strategy<K>, key: K, i: int32, capacity: int32)
    requires Satisfies(s.hash)
    requires 0 < capacity <= 0x4000_0000
    ensures IndexAsWritten(s, key, i, capacity) == Index(s, key, i, capacity)
  {
  }
}

/** The linear-probing overflow exhibited on the division method. */
module LinearProbingOverflow {
  import opened CSharpInt
  import opened Outcome
  import DivisionHash
  import opened LinearProbing

  const Division: Strategy<int32> := Strategy(DivisionHash.Index)

  /** With capacity `int.MaxValue`, key `int.MaxValue - 1` has base bucket
      `int.MaxValue - 1`; its probe `i = 2` wraps `baseIdx + i` to `int.MinValue` and
      the code returns bucket -1, outside the table, where 1 is intended. */
  lemma AsWrittenLeavesRange()
    ensures IndexAsWritten(Division, INT32_MAX - 1, 2, INT32_MAX) == Ok(-1)
    ensures Index(Division, INT32_MAX - 1, 2, INT32_MAX) == Ok(1)
  {
  }
}
