/** The division method: `h(k) = k mod m`, normalised into `[0, m)`. */
module DivisionHash {
  import opened CSharpInt
  import opened Outcome
  import opened HashStrategy

  /** The bucket of `key`: C#'s truncating `key % capacity`, plus `capacity` once when
      that remainder is negative. The result is the non-negative (Euclidean) residue of
      `key`, which is mathematically `((key % capacity) + capacity) % capacity`. */
  function Index(key: int32, capacity: int32): (r: Result<int32>)
    ensures r.Err? <==> capacity <= 0
    ensures r.Err? ==> r.error == ArgumentOutOfRange("capacity")
    ensures r.Ok? ==> 0 <= r.value < capacity
    ensures r.Ok? ==> r.value == key % capacity
  {
    if capacity <= 0 then
      Err(ArgumentOutOfRange("capacity"))
    else
      var idx := Rem(key, capacity);
      var normalised := if idx < 0 then idx + capacity else idx;
      assert (key - normalised) % capacity == 0 by {
        if idx < 0 {
          MultipleModZero((key - idx) / capacity + 1, capacity);
          assert key - idx == ((key - idx) / capacity) * capacity;
          assert key - normalised == ((key - idx) / capacity - 1) * capacity;
          MultipleModZero((key - idx) / capacity - 1, capacity);
        }
      }
      ModUnique(key, capacity, normalised);
      Ok(normalised)
  }

  /** The truncated remainder lies strictly between `-capacity` and `capacity`, so a
      single addition of `capacity` brings a negative one into range. */
  lemma OneCorrectionSuffices(key: int32, capacity: int32)
    requires capacity > 0
    ensures -capacity < Rem(key, capacity) < capacity
    ensures Rem(key, capacity) < 0 ==> 0 <= Rem(key, capacity) + capacity < capacity
  {
  }

  /** The division method meets the interface contract, for every key including
      negative ones and `int.MinValue`. */
  lemma SatisfiesContract()
    ensures Satisfies(Index)
  {
  }

  /** A key that is already a bucket index is its own bucket. */
  lemma SmallKeyIsOwnBucket(key: int32, capacity: int32)
    requires 0 <= key < capacity
    ensures Index(key, capacity) == Ok(key)
  {
    assert (key - key) % capacity == 0;
    ModUnique(key, capacity, key);
  }

  /** Keys that differ by a multiple of the capacity collide. */
  lemma CongruentKeysCollide(k1: int32, k2: int32, capacity: int32)
    requires capacity > 0
    requires (k1 - k2) % capacity == 0
    ensures Index(k1, capacity) == Index(k2, capacity)
  {
    var r1, r2 := k1 % capacity, k2 % capacity;
    var q1, q2, q := k1 / capacity, k2 / capacity, (k1 - k2) / capacity;
    assert k1 == q1 * capacity + r1;
    assert k2 == q2 * capacity + r2;
    assert k1 - k2 == q * capacity;
    assert (q - q1 + q2) * capacity == r1 - r2;
    SmallMultipleIsZero(q - q1 + q2, capacity);
  }
}
