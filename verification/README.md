# Hash tables with chaining and open-addressing probe sequences

A Dafny model of the hashing core of `algorithms-lab6`, a C# laboratory on hash tables:

- two hash strategies mapping an `int` key to a bucket in `[0, capacity)`:
  - the division method (`k mod m`, normalised);
  - Knuth's multiplicative method: `floor(m * r0 / 2^32)` with `r0 = ((uint)k * S) mod 2^32` and `S = floor(A * 2^32)`, an approximation of `floor(m * frac(k * A))`;
- three probe sequences for open addressing:
  - linear (`h(k) + i`);
  - quadratic (`h(k) + c1*i + c2*i^2`);
  - double hashing (`h1(k) + i * (1 + h2.Index(k, m - 1))`);
- the separate-chaining table `ChainedHashTable<K, V>`:
  - construction;
  - `AddOrUpdate` with doubling when the maximum load factor would be exceeded;
  - `TryGetValue`, `Search` (with a comparison count) and `Remove`;
  - `Resize` / `InsertRehashed`;
  - `GetChainLengthStats`.

The C# integer semantics the code relies on are explicit in `CSharpInt`:
- `int` and `long` addition and multiplication wrap around (`WrapInt32`, `WrapInt64`);
- `(uint)` and `(ulong)` casts reduce modulo 2^32 and 2^64 (`ToUInt32`, `ToUInt64`);
- `%` truncates toward zero (`Rem`).

Exceptions become the `Err(ArgumentOutOfRange(paramName))` case of `Outcome.Result`. The parameter name is the one the code passes to `nameof`.

A hash strategy (`IHashStrategy<K>.Index(key, capacity)`) is modelled as a function value `HashIndex<K>`. Its interface contract is `HashStrategy.Satisfies`: for every key and every positive capacity it returns a bucket in `[0, capacity)`. Both shipped strategies are proved to meet it.

The chained table is an immutable value, `Table(hash, buckets, count, maxLoadFactor)`, in which:
- each bucket is a sequence of nodes from the chain's head;
- every mutating operation returns the new table;
- `Valid` is the table invariant:
  - every node sits in the bucket its key hashes to;
  - no key occurs twice;
  - `Count` is the number of nodes;
- `Contents` abstracts a valid table to the `map<K, V>` its lookups answer. The operations are proved against that map.

## Model

| member | source | states |
|---|---|---|
| CSharpInt.WrapInt32 | algorithms-lab6/LinearProbingStrategy.cs:27 | unchecked `int` arithmetic: the value in `[int.MinValue, int.MaxValue]` congruent to the exact result modulo 2^32, equal to it when it fits and `x - 2^32` just above `int.MaxValue` |
| CSharpInt.WrapInt64 | algorithms-lab6/QuadraticProbingStrategy.cs:39-40 | unchecked `long` arithmetic: congruent modulo 2^64, identity when the value fits |
| CSharpInt.ToUInt32 | algorithms-lab6/MultiplicationHashStrategy.cs:15 | `(uint)` cast: the value in `[0, 2^32)` congruent modulo 2^32, identity on that range |
| CSharpInt.ToUInt64 | algorithms-lab6/MultiplicationHashStrategy.cs:19 | `(ulong)` cast: the value in `[0, 2^64)` congruent modulo 2^64, identity on that range |
| CSharpInt.Rem | algorithms-lab6/DivisionHashStrategy.cs:12 | C# `%` by a positive divisor: strictly between `-b` and `b`, sign of the dividend, congruent to it, and Dafny's `%` for non-negative dividends |
| DivisionHash.Index | algorithms-lab6/DivisionHashStrategy.cs:6-18 | fails with `capacity` exactly when capacity <= 0; otherwise the bucket is in `[0, capacity)` and equals the mathematical `key mod capacity`, negative keys included |
| DivisionHash.OneCorrectionSuffices | algorithms-lab6/DivisionHashStrategy.cs:12-15 | one addition of `capacity` to a negative truncated remainder lands in `[0, capacity)` |
| DivisionHash.SatisfiesContract | algorithms-lab6/DivisionHashStrategy.cs:5-18 | the division method meets the hash-strategy contract |
| DivisionHash.SmallKeyIsOwnBucket | algorithms-lab6/DivisionHashStrategy.cs:11-17 | a key in `[0, capacity)` is its own bucket |
| DivisionHash.CongruentKeysCollide | algorithms-lab6/DivisionHashStrategy.cs:11-17 | keys differing by a multiple of the capacity share a bucket |
| MultiplicationHash.KnuthConstant | algorithms-lab6/MultiplicationHashStrategy.cs:6-7 | `S` is odd and is `floor((sqrt(5) - 1) / 2 * 2^32)`, stated by squaring both bounds |
| MultiplicationHash.LowBits | algorithms-lab6/MultiplicationHashStrategy.cs:14-15 | `r0` is the low 32 bits of `(uint)key * S` |
| MultiplicationHash.Index | algorithms-lab6/MultiplicationHashStrategy.cs:9-20 | fails with `capacity` exactly when capacity <= 0; otherwise the bucket is `floor(r0 * capacity / 2^32)` and lies in `[0, capacity)` |
| MultiplicationHash.ProductBounds | algorithms-lab6/MultiplicationHashStrategy.cs:17-19 | `r0 * capacity` stays below 2^63, so the `ulong` product never wraps and the shifted value is a bucket |
| MultiplicationHash.SatisfiesContract | algorithms-lab6/MultiplicationHashStrategy.cs:5-20 | the multiplicative method meets the hash-strategy contract |
| MultiplicationHash.ZeroKeyToFirstBucket | algorithms-lab6/MultiplicationHashStrategy.cs:15-19 | key 0 lands in bucket 0 for every capacity |
| MultiplicationHash.SingleBucket | algorithms-lab6/MultiplicationHashStrategy.cs:19 | with one bucket every key lands in bucket 0 |
| HashStrategy.CheckArguments | algorithms-lab6/LinearProbingStrategy.cs:17-23 | accepts exactly `capacity > 0` and `0 <= i < capacity`; rejects capacity first, then `i` |
| LinearProbing.IndexAsWritten | algorithms-lab6/LinearProbingStrategy.cs:16-28 | the code's probe with a wrapping `int` sum: the argument errors, and a result strictly between `-capacity` and `capacity` |
| LinearProbing.Index | algorithms-lab6/LinearProbingStrategy.cs:25-27 | the argument errors; for a strategy meeting the contract, the probe is in `[0, capacity)` and equals `(h(key) + i) mod capacity` |
| LinearProbing.FirstProbeIsBase | algorithms-lab6/LinearProbingStrategy.cs:25-27 | probe 0 is the hash strategy's bucket |
| LinearProbing.NextProbe | algorithms-lab6/LinearProbingStrategy.cs:25-27 | probe `i + 1` is the bucket after probe `i`, wrapping at the end |
| LinearProbing.ProbesArePermutation | algorithms-lab6/LinearProbingStrategy.cs:16-28 | over `i` in `[0, capacity)` the probes are pairwise distinct and reach every bucket |
| LinearProbing.AsWrittenAgreesBelowLimit | algorithms-lab6/LinearProbingStrategy.cs:27 | up to 2^30 buckets the code's probe is the intended one |
| LinearProbingOverflow.AsWrittenLeavesRange | algorithms-lab6/LinearProbingStrategy.cs:27 | capacity `int.MaxValue`, key `int.MaxValue - 1`, `i = 2`: the code returns -1; the intended probe is 1 |
| QuadraticProbing.New | algorithms-lab6/QuadraticProbingStrategy.cs:10-26 | succeeds exactly for positive `c1` and `c2`, rejecting `c1` first, and keeps the hash and constants |
| QuadraticProbing.OffsetAsWritten | algorithms-lab6/QuadraticProbingStrategy.cs:39 | the wrapping `long` offset equals `c1*i + c2*i*i` whenever that value fits in a `long` |
| QuadraticProbing.IndexAsWritten | algorithms-lab6/QuadraticProbingStrategy.cs:28-41 | the code's probe: the argument errors, and a result strictly between `-capacity` and `capacity` |
| QuadraticProbing.Index | algorithms-lab6/QuadraticProbingStrategy.cs:37-40 | the argument errors; with positive constants and a strategy meeting the contract, the probe is in `[0, capacity)` and equals `(h(key) + c1*i + c2*i^2) mod capacity` |
| QuadraticProbing.FirstProbeIsBase | algorithms-lab6/QuadraticProbingStrategy.cs:37-40 | probe 0 is the hash strategy's bucket, both as written and as intended |
| QuadraticProbing.AsWrittenAgreesWithoutOverflow | algorithms-lab6/QuadraticProbingStrategy.cs:39-40 | whenever `baseIdx + offset` fits in a `long` the code's probe is the intended one |
| QuadraticProbingOverflow.AsWrittenLeavesRange | algorithms-lab6/QuadraticProbingStrategy.cs:39-40 | capacity 2^17, `c1 = 1`, `c2 = 2^30`, key 0, `i = 2^17 - 1`: the code returns -1; the intended probe is 2^17 - 1 |
| DoubleHashing.Step | algorithms-lab6/DoubleHashingStrategy.cs:39 | for a step strategy meeting the contract the step lies in `[1, capacity - 1]`, so it is never 0 |
| DoubleHashing.Index | algorithms-lab6/DoubleHashingStrategy.cs:22-41 | the argument errors, and any result lies strictly between `-capacity` and `capacity` |
| DoubleHashing.LongSumFits | algorithms-lab6/DoubleHashingStrategy.cs:40 | `start + (long)i * step` never leaves the `long` range |
| DoubleHashing.IndexFormula | algorithms-lab6/DoubleHashingStrategy.cs:31-40 | above one bucket, the probe is in `[0, capacity)` and equals `(h1(key) + i * step) mod capacity` with the step in `[1, capacity - 1]` |
| DoubleHashing.IndexInRange | algorithms-lab6/DoubleHashingStrategy.cs:22-41 | every in-range attempt yields a bucket of the table |
| DoubleHashing.SingleBucket | algorithms-lab6/DoubleHashingStrategy.cs:35-37 | with one bucket the probe is 0 |
| DoubleHashing.FirstProbeIsBase | algorithms-lab6/DoubleHashingStrategy.cs:31-40 | probe 0 is `h1`'s bucket |
| DoubleHashing.SecondProbeMoves | algorithms-lab6/DoubleHashingStrategy.cs:39-40 | because the step is never a multiple of the capacity, probe 1 differs from probe 0 |
| Chains.Find | algorithms-lab6/ChainedHashTable.cs:67-80 | the chain walk finds a value exactly when some node carries the key, and the value found is that node's |
| Chains.FirstIndex | algorithms-lab6/ChainedHashTable.cs:53-60 | the position where the walk from the head first meets the key: that node has the key and no earlier one does |
| Chains.Overwrite | algorithms-lab6/ChainedHashTable.cs:53-57 | the overwrite keeps the chain's length and the key of every position; the key now answers the new value; a chain without the key is unchanged; every other key answers as before |
| Chains.OverwriteAtFirstIndex | algorithms-lab6/ChainedHashTable.cs:53-57 | the overwrite replaces exactly the first node with the key by one carrying the new value, in place, and leaves every other node where it was |
| Chains.Unlink | algorithms-lab6/ChainedHashTable.cs:154-166 | unlinking a present key shortens the chain by one; an absent key leaves it unchanged; other keys answer as before; no key is introduced; a duplicate-free chain stays duplicate-free and loses the key |
| Chains.UnlinkKeepsOrder | algorithms-lab6/ChainedHashTable.cs:154-166 | unlinking removes exactly the first node with the key: the nodes before it, then the nodes after it, in their order |
| Chains.PrependKeepsUniqueKeys | algorithms-lab6/ChainedHashTable.cs:62 | prepending a node with a fresh key keeps the chain duplicate-free |
| Chains.FindConcat | algorithms-lab6/ChainedHashTable.cs:188-194 | a lookup in two concatenated chains answers from the first, else from the second |
| Chains.FindInUniqueChain | algorithms-lab6/ChainedHashTable.cs:70-76 | in a duplicate-free chain the lookup of a node's key returns that node's value |
| ChainedHashTable.Slot | algorithms-lab6/ChainedHashTable.cs:50 | the bucket the hash strategy chooses is an index of the bucket array |
| ChainedHashTable.TryGetValue | algorithms-lab6/ChainedHashTable.cs:66-81 | on a valid table it succeeds exactly for stored keys, and the value returned is a stored node's |
| ChainedHashTable.Contents | algorithms-lab6/ChainedHashTable.cs:66-81 | the map whose entries are exactly what `TryGetValue` answers for every key |
| ChainedHashTable.ContentsFromLookups | algorithms-lab6/ChainedHashTable.cs:66-81 | any map that answers every lookup like the table is the table's `Contents` |
| ChainedHashTable.KeysUniqueInTable | algorithms-lab6/ChainedHashTable.cs:45-64 | no key occurs twice anywhere in a valid table, and a lookup over all nodes agrees with `TryGetValue` |
| ChainedHashTable.New | algorithms-lab6/ChainedHashTable.cs:27-43 | fails exactly for capacity <= 0 (`capacity`) or a maximum load factor outside (0, 1) (`maxLoadFactor`), checked in that order; otherwise an empty table with the given capacity, strategy and load factor, which is valid for a strategy meeting the contract |
| ChainedHashTable.Store | algorithms-lab6/ChainedHashTable.cs:50-63 | the store step keeps the strategy, capacity and maximum load factor |
| ChainedHashTable.StoreSpec | algorithms-lab6/ChainedHashTable.cs:50-63 | the store step keeps the invariant, binds the key to the value, leaves other keys alone, and adds one node exactly when the key was absent; only the key's chain changes: a new key's node becomes its head, and an existing key's node is updated in place |
| ChainedHashTable.StoreContents | algorithms-lab6/ChainedHashTable.cs:50-63 | on the abstract map the store step is the update `key := value` |
| ChainedHashTable.InsertRehashed | algorithms-lab6/ChainedHashTable.cs:197-201 | one rehash step puts the node at the head of its key's chain, leaves every other chain alone and counts the node |
| ChainedHashTable.RehashAllKeepsNodes | algorithms-lab6/ChainedHashTable.cs:188-194 | the rehash loop loses no node and invents none: the result's nodes are the table's plus the rehashed ones, and the count grows by their number |
| ChainedHashTable.RehashAllSpec | algorithms-lab6/ChainedHashTable.cs:188-201 | rehashing fresh, duplicate-free nodes keeps the invariant, adds their number to the count, and makes each of them answer its value |
| ChainedHashTable.Resize | algorithms-lab6/ChainedHashTable.cs:179-186 | fails with `newCapacity` exactly when it is <= 0; otherwise has that many buckets, the same strategy and load factor |
| ChainedHashTable.ResizeSpec | algorithms-lab6/ChainedHashTable.cs:179-201 | a resize of a valid table keeps the invariant for the new capacity, the count, every lookup and the abstract map |
| ChainedHashTable.AddOrUpdate | algorithms-lab6/ChainedHashTable.cs:45-48 | fails exactly when a doubling is due and `Capacity * 2` overflows `int`; doubles the capacity exactly when one more entry would exceed the maximum load factor |
| ChainedHashTable.AddOrUpdateSpec | algorithms-lab6/ChainedHashTable.cs:45-64 | the result is valid, maps the key to the value and every other key as before (`Contents` updated at the key), and has one more node exactly when the key was new |
| ChainedHashTable.Remove | algorithms-lab6/ChainedHashTable.cs:148-173 | keeps the strategy, capacity and load factor; a `false` answer leaves the table unchanged |
| ChainedHashTable.RemoveSpec | algorithms-lab6/ChainedHashTable.cs:148-173 | the result is valid; the answer is whether the key was stored; `Count` drops by one exactly then; the key is gone, every other key answers as before, and `Contents` loses exactly the key; only the key's chain changes, losing exactly its node and keeping the order of the rest |
| ChainedHashTable.RemoveKeepsValid | algorithms-lab6/ChainedHashTable.cs:148-173 | the table left by `Remove` is valid; the answer is whether the walk found the key; `Count` drops by one exactly then; the key is gone and every other key answers as before |
| ChainedHashTable.RemoveChains | algorithms-lab6/ChainedHashTable.cs:154-166 | `Remove` changes no chain but the key's, and there drops exactly the first node with the key, keeping the others in order |
| ChainedHashTable.Search | algorithms-lab6/ChainedHashTable.cs:83-102 | the same answer as `TryGetValue`; comparisons count the visited nodes: the hit's position, or the whole chain on a miss |
| ChainedHashTable.SearchFreshlyStored | algorithms-lab6/ChainedHashTable.cs:83-102 | a key stored for the first time is found by `Search` with one comparison |
| ChainedHashTable.GetChainLengthStats | algorithms-lab6/ChainedHashTable.cs:104-146 | (0, 0) for an empty table; otherwise `max` is a longest chain's length and `min` a shortest chain's, over all buckets or only the non-empty ones |
| ChainedHashTable.AddOrUpdateKeepsLoadBound | algorithms-lab6/ChainedHashTable.cs:45-48 | starting at or below the maximum load factor, with `maxLoadFactor * Capacity >= 1`, an insertion ends at or below it |
| ChainedHashTable.LoadFactorMeaning | algorithms-lab6/ChainedHashTable.cs:12 | the load factor times the capacity is the count; it is in `[0, 1]` while the count does not exceed the capacity; it is within the maximum exactly when the count is within `maxLoadFactor * Capacity` |
| ChainedHashTable.NeedsResizeMeaning | algorithms-lab6/ChainedHashTable.cs:175-177 | the resize test fires exactly when the new count exceeds `maxLoadFactor * Capacity` |
| ChainedHashTable.AddOrUpdateStep | algorithms-lab6/ChainedHashTable.cs:45-48 | one successful insertion adds at most one node and doubles the capacity when the resize test fires; otherwise the capacity stays and the new count fits the maximum load factor |
| ChainedHashTable.LoadBoundStep | algorithms-lab6/ChainedHashTable.cs:45-48 | a step of at most one entry, into the same or twice the buckets as that step requires, keeps the load bound when `maxLoadFactor * Capacity >= 1` |
| ChainedHashTable.AddOrUpdateCountStep | algorithms-lab6/ChainedHashTable.cs:45-64 | an insertion adds at most one node |
| ChainedHashTable.LoadArithmetic | algorithms-lab6/ChainedHashTable.cs:175-177 | the load bound carries over from `n` entries in `c` buckets to at most `n + 1` entries in `c` or `2c` buckets, doubling only when `(n + 1) / c` is too high |
| ChainedHashTable.LoadBoundNeedsHypothesis | algorithms-lab6/ChainedHashTable.cs:45-48 | with capacity 1 and load factor 0.1 the first insertion doubles once and still ends at load 1/2 |
| ChainedHashTable.AddOrUpdateKeepsCountBelowCapacity | algorithms-lab6/ChainedHashTable.cs:45-48 | `Count < Capacity` is preserved by every insertion, since the maximum load factor is below 1 |
| ChainedHashTable.OverwriteRoundTrip | algorithms-lab6/ChainedHashTable.cs:53-57 | storing a key twice keeps the count of the first store and answers the second value |
| Scenario.ThreeKeysFit | algorithms-lab6/ChainedHashTable.cs:45-64 | capacity 4 and load factor 0.75: three distinct keys fit without growth and are all stored |
| Scenario.FourthKeyDoubles | algorithms-lab6/ChainedHashTable.cs:45-64 | a fourth distinct key doubles the capacity to 8 and leaves four stored entries |
| Scenario.DivisionRun | algorithms-lab6/ChainedHashTable.cs:45-48 | with the division method and keys 1, 2, 3, 7 the capacity stays 4 after three insertions and is 8 after the fourth |

## Left out

- The benchmark code and chart cache (`Charts/`) are measurement and I/O around the core; they are not part of this model.
- The `IHashStrategy<K>` and `IProbingStrategy<K>` interface files are not part of this model. The hash interface is the function type `HashIndex<K>` with the contract `Satisfies`. The probing strategies are modelled one by one, without a common interface.
- No open-addressing table uses the probe sequences in this code, so none is modelled.
- The `ArgumentNullException` checks on injected strategies are not modelled: a Dafny function value cannot be null.
- `EqualityComparer<K>.Default` is modelled as Dafny equality on `K`.
- `MaxLoadFactor` and `LoadFactor` are exact reals rather than IEEE doubles. The `(double)newCount / Capacity` rounding in `NeedsResize` is therefore not modelled.
- `Count` is an unbounded integer. The table cannot reach 2^31 nodes before `Capacity * 2` overflows, so its `int` width never matters.
- `TryGetValue` and `Search` return `None` where C# returns `false` with `default(V)` in the out parameter.
- ChainedHashTable.GetChainLengthStats: the `int.MaxValue` sentinel for "no chain seen yet" is an `Option`. This is the same outcome for every reachable table, whose chains are far shorter than `int.MaxValue`.
- ChainedHashTable.AddOrUpdateKeepsLoadBound: the load bound is proved only under `maxLoadFactor * Capacity >= 1`. A single doubling does not restore the bound in general (see `LoadBoundNeedsHypothesis`).
- QuadraticProbing.Index: whether the quadratic sequence visits every bucket is not claimed. It depends on `c1`, `c2` and the capacity, and the code does not promise it.
- DoubleHashing.IndexFormula: whether double hashing visits every bucket is not claimed. That needs the step to be coprime with the capacity, which the code does not ensure.
- A hash strategy that throws, or answers outside `[0, capacity)`, for a positive capacity is not modelled for the chained table. `New` accepts it, but every table operation (`Slot`, `TryGetValue`, `Search`, `Store`, `AddOrUpdate`, `Remove`, `Resize`, `InsertRehashed`) requires `WellFormed`, which includes `Satisfies`. In C# such a strategy makes the operation throw, either from `_hash.Index` (in `AddOrUpdate` possibly after a `Resize` has already happened) or from `_buckets[idx]`. The probing strategies do model it: they propagate the strategy's `Err`.

## Findings

| source | as written | input that shows it | evidently intended | confidence | as-written member | corrected member |
|---|---|---|---|---|---|---|
| algorithms-lab6/LinearProbingStrategy.cs:27 | `(baseIdx + i) % capacity` adds in 32-bit `int`, which wraps once `baseIdx + i` passes `int.MaxValue` (possible for capacities above 2^30) | capacity `int.MaxValue`, division hash, key `int.MaxValue - 1` (base bucket `int.MaxValue - 1`), `i = 2` | `(baseIdx + i) mod capacity` = 1, a bucket | not executed | LinearProbingOverflow.AsWrittenLeavesRange | LinearProbing.Index |
| algorithms-lab6/QuadraticProbingStrategy.cs:39-40 | `(long)c2 * i * i` wraps in 64-bit `long` for large `c2` and `i`, and the probe comes out negative | capacity 2^17, `c1 = 1`, `c2 = 2^30`, division hash, key 0, `i = 2^17 - 1` | `(h(k) + c1*i + c2*i^2) mod capacity` = 2^17 - 1, a bucket | not executed | QuadraticProbingOverflow.AsWrittenLeavesRange | QuadraticProbing.Index |
