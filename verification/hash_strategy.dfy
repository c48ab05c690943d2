/** The hash-strategy interface shared by every index computation of the engine:
    `Index(key, capacity)` names the bucket of `key` in a table of `capacity` buckets.
    A strategy is modelled as a function value; its contract is the ghost predicate
    `Satisfies`, which every concrete strategy is proved to meet. */
module HashStrategy {
  import opened CSharpInt
  import opened Outcome

  /** `Index(key, capacity)`; an `Err` is the strategy throwing. */
  type HashIndex<!K> = (K, int32) -> Result<int32>

  /** The interface contract: for every key and every positive capacity the strategy
      answers, and its answer is a bucket index in `[0, capacity)`. */
  ghost predicate Satisfies<K(!new)>(h: HashIndex<K>) {
    forall key: K, capacity: int32 :: capacity > 0 ==> h(key, capacity).Ok? && 0 <= h(key, capacity).value < capacity
  }

  /** The argument checks at the head of every probing strategy's `Index(key, i, capacity)`:
      the capacity first, then the attempt number. */
  function CheckArguments(i: int32, capacity: int32): (r: Result<()>)
    ensures r.Ok? <==> capacity > 0 && 0 <= i < capacity
    ensures capacity <= 0 ==> r == Err(ArgumentOutOfRange("capacity"))
    ensures capacity > 0 && !(0 <= i < capacity) ==> r == Err(ArgumentOutOfRange("i"))
  {
    if capacity <= 0 then Err(ArgumentOutOfRange("capacity"))
    else if i < 0 || i >= capacity then Err(ArgumentOutOfRange("i"))
    else Ok(())
  }
}
