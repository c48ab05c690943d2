/** Double hashing: the i-th probe for `key` is `(h1(key) + i * step) mod m`, with the
    step `1 + h2(key, m - 1)` taken from a second hash strategy so that it is never 0. */
module DoubleHashing {
  import opened CSharpInt
  import opened Outcome
  import opened HashStrategy

  /** A double-hashing strategy: the base strategy `h1` and the step strategy `h2`. */
  datatype Strategy<!K> = Strategy(h1: HashIndex<K>, h2: HashIndex<K>)

  /** `1 + h2.Index(key, capacity - 1)`, an `int` addition; for a strategy that meets
      the interface contract the step lies in `[1, capacity - 1]`, so it is never 0. */
  function Step<K(!new)>(s: Strategy<K>, key: K, capacity: int32): (r: Result<int32>)
    requires capacity > 1
    ensures Satisfies(s.h2) ==> r.Ok? && 1 <= r.value <= capacity - 1
  {
    var h :- s.h2(key, capacity - 1);
    Ok(WrapInt32(1 + h))
  }

  /** `Index` as the C# code computes it. The `long` sum `start + (long)i * step` has
      magnitude below 2^62 + 2^31, so it never wraps; the remainder truncates toward
      zero, and `IndexFormula` shows it lands in `[0, capacity)` whenever both
      strategies meet the contract. */
  function Index<K(!new)>(s: Strategy<K>, key: K, i: int32, capacity: int32): (r: Result<int32>)
    ensures r.Err? <== !(capacity > 0 && 0 <= i < capacity)
    ensures capacity <= 0 ==> r == Err(ArgumentOutOfRange("capacity"))
    ensures capacity > 0 && !(0 <= i < capacity) ==> r == Err(ArgumentOutOfRange("i"))
    ensures r.Ok? ==> -capacity < r.value < capacity
  {
    var _ :- CheckArguments(i, capacity);
    var start :- s.h1(key, capacity);
    if capacity == 1 then
      Ok(0)
    else
      var step :- Step(s, key, capacity);
      LongSumFits(start, i, step);
      Ok(Rem(WrapInt64(start as int + (i as int) * (step as int)), capacity))
  }

  /** `start + (long)i * step` for 32-bit operands and non-negative `i` fits in a `long`. */
  lemma LongSumFits(start: int32, i: int32, step: int32)
    requires i >= 0
    ensures INT64_MIN <= start as int + (i as int) * (step as int) <= INT64_MAX
  {
    if step >= 0 {
      MulBounds(i, step, INT32_MAX, INT32_MAX);
    } else {
      MulBounds(i, -(step as int), INT32_MAX, -INT32_MIN);
    }
  }

  /** For capacity above 1 the probe is `(start + i * step) mod capacity`, with the
      base bucket from `h1` and the step from `h2` within `[1, capacity - 1]`. */
  lemma IndexFormula<K(!new)>(s: Strategy<K>, key: K, i: int32, capacity: int32)
    requires Satisfies(s.h1) && Satisfies(s.h2)
    requires 1 < capacity && 0 <= i < capacity
    ensures 1 <= Step(s, key, capacity).value <= capacity - 1
    ensures Index(s, key, i, capacity).Ok?
    ensures 0 <= Index(s, key, i, capacity).value < capacity
    ensures Index(s, key, i, capacity).value ==
      (s.h1(key, capacity).value as int + (i as int) * (Step(s, key, capacity).value as int)) % capacity
  {
    var start := s.h1(key, capacity).value;
    var step := Step(s, key, capacity).value;
    var sum := start as int + (i as int) * (step as int);
    MulBounds(i, step, i, step);
    LongSumFits(start, i, step);
    assert sum >= 0;
    assert Index(s, key, i, capacity) == Ok(Rem(sum, capacity));
  }

  /** Every probe of an in-range attempt is a bucket of the table. */
  lemma IndexInRange<K(!new)>(s: Strategy<K>, key: K, i: int32, capacity: int32)
    requires Satisfies(s.h1) && Satisfies(s.h2)
    requires 0 <= i < capacity
    ensures Index(s, key, i, capacity).Ok?
    ensures 0 <= Index(s, key, i, capacity).value < capacity
  {
    if capacity > 1 {
      IndexFormula(s, key, i, capacity);
    }
  }

  /** A single bucket is always bucket 0. */
  lemma SingleBucket<K(!new)>(s: Strategy<K>, key: K)
    requires Satisfies(s.h1)
    ensures Index(s, key, 0, 1) == Ok(0)
  {
  }

  /** The first probe is `h1`'s bucket. */
  lemma FirstProbeIsBase<K(!new)>(s: Strategy<K>, key: K, capacity: int32)
    requires Satisfies(s.h1) && Satisfies(s.h2)
    requires capacity > 0
    ensures Index(s, key, 0, capacity) == s.h1(key, capacity)
  {
    var start := s.h1(key, capacity).value;
    if capacity > 1 {
      IndexFormula(s, key, 0, capacity);
      assert 0 * (Step(s, key, capacity).value as int) == 0;
      ModOfShortRange(start, capacity);
      assert Index(s, key, 0, capacity) == Ok(start);
    } else {
      assert start == 0;
      assert Index(s, key, 0, capacity) == Ok(0);
    }
    assert s.h1(key, capacity) == Ok(start);
  }

  /** Because the step is not a multiple of the capacity, the second probe never
      revisits the first bucket. */
  lemma SecondProbeMoves<K(!new)>(s: Strategy<K>, key: K, capacity: int32)
    requires Satisfies(s.h1) && Satisfies(s.h2)
    requires capacity > 1
    ensures Index(s, key, 1, capacity).value != Index(s, key, 0, capacity).value
  {
    var start := s.h1(key, capacity).value;
    var step := Step(s, key, capacity).value;
    FirstProbeIsBase(s, key, capacity);
    IndexFormula(s, key, 1, capacity);
    ModOfShortRange(start as int + step, capacity);
  }
}
