/** The separate-chaining hash table `ChainedHashTable<K, V>`: an array of chains, one
    per bucket, a node count, and a maximum load factor that triggers a doubling of the
    bucket array before an insertion would exceed it. */
module ChainedHashTable {
  import opened CSharpInt
  import opened Outcome
  import opened HashStrategy
  import opened Chains

  /** The table's state. `buckets[i]` is chain `i` from its head; `count` is the `Count`
      property; `Capacity` is the number of buckets. The hash strategy is injected at
      construction and never changes. */
  datatype Table<!K, V> = Table(hash: HashIndex<K>, buckets: seq<Chain<K, V>>, count: int, maxLoadFactor: real)

  function Capacity<K, V>(t: Table<K, V>): nat {
    |t.buckets|
  }

  /** `LoadFactor = Count / Capacity`, exact (the C# code divides doubles). */
  function LoadFactor<K, V>(t: Table<K, V>): real
    requires Capacity(t) > 0
  {
    t.count as real / Capacity(t) as real
  }

  /** The load factor times the capacity is the count; it lies in `[0, 1]` while the
      count does not exceed the capacity; and it is within the maximum load factor
      exactly when the count is within `maxLoadFactor * Capacity`. */
  lemma LoadFactorMeaning<K, V>(t: Table<K, V>)
    requires Capacity(t) > 0
    ensures LoadFactor(t) * Capacity(t) as real == t.count as real
    ensures 0 <= t.count <= Capacity(t) ==> 0.0 <= LoadFactor(t) <= 1.0
    ensures LoadFactor(t) <= t.maxLoadFactor <==> t.count as real <= t.maxLoadFactor * Capacity(t) as real
  {
    var c := Capacity(t) as real;
    DivBound(t.count as real, c, t.maxLoadFactor);
    DivBound(t.count as real, c, 1.0);
    assert LoadFactor(t) * c == t.count as real;
  }

  /** The shape every table has from construction on: a strategy meeting the hash
      contract, between 1 and `int.MaxValue` buckets, and a maximum load factor in (0, 1). */
  ghost predicate WellFormed<K(!new), V>(t: Table<K, V>) {
    && Satisfies(t.hash)
    && 0 < |t.buckets| <= INT32_MAX
    && 0.0 < t.maxLoadFactor < 1.0
  }

  /** `_hash.Index(key, Capacity)`: the bucket whose chain holds `key` if anything does. */
  function Slot<K(!new), V>(t: Table<K, V>, key: K): (r: nat)
    requires WellFormed(t)
    ensures r < Capacity(t)
  {
    t.hash(key, |t.buckets| as int32).value
  }

  /** Every node sits in the chain its key hashes to for `capacity` buckets. */
  ghost predicate Placed<K(!new), V>(hash: HashIndex<K>, bs: seq<Chain<K, V>>, capacity: int32) {
    forall i, j :: 0 <= i < |bs| && 0 <= j < |bs[i]| ==>
      hash(bs[i][j].key, capacity).Ok? && hash(bs[i][j].key, capacity).value == i
  }

  /** All nodes of the table, bucket 0 first, each chain from its head: the order in
      which `Resize` visits them. */
  function Flatten<K, V>(bs: seq<Chain<K, V>>): Chain<K, V> {
    if |bs| == 0 then [] else Flatten(bs[..|bs| - 1]) + bs[|bs| - 1]
  }

  /** The table invariant: well-formed, every key in chain `Index(key, Capacity)`, no key
      twice in a chain (hence, by `KeysUniqueInTable`, nowhere twice), and `Count` equal
      to the number of nodes. */
  ghost predicate Valid<K(!new), V>(t: Table<K, V>) {
    && WellFormed(t)
    && Placed(t.hash, t.buckets, |t.buckets| as int32)
    && (forall i :: 0 <= i < |t.buckets| ==> UniqueKeys(t.buckets[i]))
    && t.count == |Flatten(t.buckets)|
  }

  /** Every key stored in the table. */
  ghost function Keys<K, V>(t: Table<K, V>): set<K> {
    set i, j | 0 <= i < |t.buckets| && 0 <= j < |t.buckets[i]| :: t.buckets[i][j].key
  }

  /** `TryGetValue(key, out value)`: walk chain `Index(key, Capacity)` for `key`; `None`
      stands for the `false` return with a default value. On a valid table the lookup
      succeeds exactly for stored keys, and returns the stored value. */
  function TryGetValue<K(==, !new), V>(t: Table<K, V>, key: K): (r: Option<V>)
    requires WellFormed(t)
    ensures Valid(t) ==> (r.Some? <==> key in Keys(t))
    ensures r.Some? ==>
      (exists i, j :: 0 <= i < |t.buckets| && 0 <= j < |t.buckets[i]| && t.buckets[i][j] == Node(key, r.value))
  {
    var r := Find(t.buckets[Slot(t, key)], key);
    assert Valid(t) ==> (r.Some? <==> key in Keys(t)) by {
      if Valid(t) && key in Keys(t) {
        var i, j :| 0 <= i < |t.buckets| && 0 <= j < |t.buckets[i]| && t.buckets[i][j].key == key;
        assert i == Slot(t, key);
      }
    }
    r
  }

  /** The abstraction of a valid table: the key-to-value map its lookups answer. */
  ghost function Contents<K(!new), V>(t: Table<K, V>): (m: map<K, V>)
    requires Valid(t)
    ensures forall key :: TryGetValue(t, key) == if key in m then Some(m[key]) else None
  {
    map k | k in Keys(t) && TryGetValue(t, k).Some? :: TryGetValue(t, k).value
  }

  /** A valid table holds exactly the map its lookups answer. */
  lemma ContentsFromLookups<K(!new), V>(t: Table<K, V>, m: map<K, V>)
    requires Valid(t)
    requires forall key :: TryGetValue(t, key) == if key in m then Some(m[key]) else None
    ensures Contents(t) == m
  {
    var c := Contents(t);
    assert forall key :: key in c <==> key in m by {
      forall key ensures key in c <==> key in m {
        assert TryGetValue(t, key).Some? <==> key in m;
      }
    }
    assert c.Keys == m.Keys;
    forall key | key in m ensures c[key] == m[key] {
      assert TryGetValue(t, key) == Some(m[key]);
    }
  }

  /** Two valid tables that answer every lookup alike hold the same map. */
  lemma SameLookupsSameContents<K(!new), V>(t1: Table<K, V>, t2: Table<K, V>)
    requires Valid(t1) && Valid(t2)
    requires forall key :: TryGetValue(t1, key) == TryGetValue(t2, key)
    ensures Contents(t1) == Contents(t2)
  {
    ContentsFromLookups(t1, Contents(t2));
  }

  /** A table of `capacity` empty chains holds no nodes. */
  lemma {:induction false} FlattenEmpty<K, V>(bs: seq<Chain<K, V>>)
    requires forall i :: 0 <= i < |bs| ==> bs[i] == []
    ensures Flatten(bs) == []
    decreases |bs|
  {
    if |bs| > 0 {
      FlattenEmpty(bs[..|bs| - 1]);
    }
  }

  /** Replacing one chain changes the node total by the difference of the chain lengths. */
  lemma {:induction false} FlattenUpdateLength<K, V>(bs: seq<Chain<K, V>>, i: nat, c: Chain<K, V>)
    requires i < |bs|
    ensures |Flatten(bs[i := c])| == |Flatten(bs)| - |bs[i]| + |c|
    decreases |bs|
  {
    var n := |bs|;
    if i == n - 1 {
      assert bs[i := c][..n - 1] == bs[..n - 1];
    } else {
      assert bs[i := c][..n - 1] == bs[..n - 1][i := c];
      FlattenUpdateLength(bs[..n - 1], i, c);
    }
  }

  /** Prepending a node to one chain adds exactly that node to the flattened table. */
  lemma {:induction false} FlattenPrependNodes<K, V>(bs: seq<Chain<K, V>>, i: nat, n: Node<K, V>)
    requires i < |bs|
    ensures multiset(Flatten(bs[i := [n] + bs[i]])) == multiset(Flatten(bs)) + multiset{n}
    decreases |bs|
  {
    var k := |bs|;
    var bs' := bs[i := [n] + bs[i]];
    var init, init' := Flatten(bs[..k - 1]), Flatten(bs'[..k - 1]);
    assert Flatten(bs) == init + bs[k - 1];
    assert Flatten(bs') == init' + bs'[k - 1];
    if i == k - 1 {
      assert bs'[..k - 1] == bs[..k - 1];
      calc {
        multiset(Flatten(bs'));
        multiset(init) + multiset([n] + bs[i]);
        multiset(init) + multiset(bs[i]) + multiset{n};
        multiset(Flatten(bs)) + multiset{n};
      }
    } else {
      assert bs'[..k - 1] == bs[..k - 1][i := [n] + bs[..k - 1][i]];
      FlattenPrependNodes(bs[..k - 1], i, n);
      assert multiset(init') == multiset(init) + multiset{n};
      calc {
        multiset(Flatten(bs'));
        multiset(init') + multiset(bs[k - 1]);
        multiset(init) + multiset{n} + multiset(bs[k - 1]);
        multiset(Flatten(bs)) + multiset{n};
      }
    }
  }

  /** A valid table with at least one node has a non-empty chain. */
  lemma {:induction false} NonEmptyChainExists<K, V>(bs: seq<Chain<K, V>>)
    requires |Flatten(bs)| > 0
    ensures exists i :: 0 <= i < |bs| && |bs[i]| > 0
    decreases |bs|
  {
    if |bs[|bs| - 1]| == 0 {
      NonEmptyChainExists(bs[..|bs| - 1]);
      var i :| 0 <= i < |bs| - 1 && |bs[..|bs| - 1][i]| > 0;
      assert |bs[i]| > 0;
    }
  }

  /** The flattened buckets of a placed table with duplicate-free chains have no
      duplicate key, and a lookup in them finds what a lookup in the key's own bucket finds. */
  lemma {:induction false} FlattenOfPlaced<K(!new), V>(hash: HashIndex<K>, bs: seq<Chain<K, V>>, capacity: int32)
    requires Placed(hash, bs, capacity)
    requires forall i :: 0 <= i < |bs| ==> UniqueKeys(bs[i])
    ensures UniqueKeys(Flatten(bs))
    ensures forall key ::
              Find(Flatten(bs), key) ==
              if hash(key, capacity).Ok? && 0 <= hash(key, capacity).value < |bs|
              then Find(bs[hash(key, capacity).value], key) else None
    decreases |bs|
  {
    if |bs| > 0 {
      var n := |bs|;
      var p, last := bs[..n - 1], bs[n - 1];
      assert forall i :: 0 <= i < n - 1 ==> p[i] == bs[i];
      FlattenOfPlaced(hash, p, capacity);
      var fp := Flatten(p);
      assert Flatten(bs) == fp + last;
      forall x, y | 0 <= x < |fp| && 0 <= y < |last|
        ensures fp[x].key != last[y].key
      {
        assert HasKey(fp, fp[x].key);
      }
      UniqueKeysConcat(fp, last);
      forall key
        ensures Find(Flatten(bs), key) ==
          if hash(key, capacity).Ok? && 0 <= hash(key, capacity).value < |bs|
          then Find(bs[hash(key, capacity).value], key) else None
      {
        FindConcat(fp, last, key);
        if Find(last, key).Some? {
          var j :| 0 <= j < |last| && last[j].key == key;
        }
      }
    }
  }

  /** Keys are unique across the whole table, not only within each chain, and looking
      a key up in all nodes finds what `TryGetValue` finds. */
  lemma KeysUniqueInTable<K(!new), V>(t: Table<K, V>)
    requires Valid(t)
    ensures UniqueKeys(Flatten(t.buckets))
    ensures forall key :: Find(Flatten(t.buckets), key) == TryGetValue(t, key)
  {
    FlattenOfPlaced(t.hash, t.buckets, |t.buckets| as int32);
  }

  /** The constructor `ChainedHashTable(hashStrategy, capacity = 16, maxLoadFactor = 0.75)`:
      it rejects a non-positive capacity and then a maximum load factor outside (0, 1);
      otherwise the table is empty with `capacity` buckets. */
  function New<K(!new), V>(hash: HashIndex<K>, capacity: int32 := 16, maxLoadFactor: real := 0.75): (r: Result<Table<K, V>>)
    ensures r.Err? <==> capacity <= 0 || maxLoadFactor <= 0.0 || maxLoadFactor >= 1.0
    ensures capacity <= 0 ==> r.error == ArgumentOutOfRange("capacity")
    ensures capacity > 0 && r.Err? ==> r.error == ArgumentOutOfRange("maxLoadFactor")
    ensures r.Ok? ==> r.value.count == 0 && Capacity(r.value) == capacity as int
    ensures r.Ok? ==> r.value.hash == hash && r.value.maxLoadFactor == maxLoadFactor
    ensures r.Ok? && Satisfies(hash) ==> Valid(r.value) && Contents(r.value) == map[]
  {
    if capacity <= 0 then
      Err(ArgumentOutOfRange("capacity"))
    else if maxLoadFactor <= 0.0 || maxLoadFactor >= 1.0 then
      Err(ArgumentOutOfRange("maxLoadFactor"))
    else
      var t := Table(hash, seq(capacity, _ => []), 0, maxLoadFactor);
      FlattenEmpty(t.buckets);
      assert Satisfies(hash) ==> Contents(t) == map[] by {
        if Satisfies(hash) {
          assert forall key :: key !in Contents(t) by {
            forall key ensures key !in Contents(t) {
              assert TryGetValue(t, key).None?;
            }
          }
        }
      }
      Ok(t)
  }

  /** `NeedsResize(newCount)`: would `newCount` entries exceed the maximum load factor? */
  function NeedsResize<K, V>(t: Table<K, V>, newCount: int): bool
    requires Capacity(t) > 0
  {
    newCount as real / Capacity(t) as real > t.maxLoadFactor
  }

  /** `NeedsResize(newCount)` holds exactly when `newCount` entries are more than the
      maximum load factor allows for the current number of buckets. */
  lemma NeedsResizeMeaning<K, V>(t: Table<K, V>, newCount: int)
    requires Capacity(t) > 0
    ensures NeedsResize(t, newCount) <==> newCount as real > t.maxLoadFactor * Capacity(t) as real
  {
    DivBound(newCount as real, Capacity(t) as real, t.maxLoadFactor);
  }

  /** The part of `AddOrUpdate` after any growth: overwrite the value of `key` in its
      chain, or prepend a new node to that chain and count it. */
  function Store<K(==, !new), V>(t: Table<K, V>, key: K, value: V): (r: Table<K, V>)
    requires WellFormed(t)
    ensures WellFormed(r) && r.hash == t.hash && Capacity(r) == Capacity(t) && r.maxLoadFactor == t.maxLoadFactor
  {
    var idx := Slot(t, key);
    var chain := t.buckets[idx];
    if Find(chain, key).Some? then
      t.(buckets := t.buckets[idx := Overwrite(chain, key, value)])
    else
      t.(buckets := t.buckets[idx := [Node(key, value)] + chain], count := t.count + 1)
  }

  /** `Store` keeps the invariant, binds `key` to `value`, leaves every other key alone,
      and counts a node exactly when `key` was absent. */
  lemma StoreSpec<K(!new), V>(t: Table<K, V>, key: K, value: V)
    requires Valid(t)
    ensures Valid(Store(t, key, value))
    ensures TryGetValue(Store(t, key, value), key) == Some(value)
    ensures forall k :: k != key ==> TryGetValue(Store(t, key, value), k) == TryGetValue(t, k)
    ensures Store(t, key, value).count == t.count + (if TryGetValue(t, key).Some? then 0 else 1)
    ensures forall i :: 0 <= i < Capacity(t) && i != Slot(t, key) ==> Store(t, key, value).buckets[i] == t.buckets[i]
    ensures TryGetValue(t, key).None? ==>
      Store(t, key, value).buckets[Slot(t, key)] == [Node(key, value)] + t.buckets[Slot(t, key)]
    ensures TryGetValue(t, key).Some? ==>
      && HasKey(t.buckets[Slot(t, key)], key)
      && Store(t, key, value).buckets[Slot(t, key)] ==
         t.buckets[Slot(t, key)][FirstIndex(t.buckets[Slot(t, key)], key) := Node(key, value)]
  {
    var r := Store(t, key, value);
    var idx := Slot(t, key);
    var chain := t.buckets[idx];
    var chain' := r.buckets[idx];
    assert r.buckets == t.buckets[idx := chain'];
    FlattenUpdateLength(t.buckets, idx, chain');
    if Find(chain, key).None? {
      PrependKeepsUniqueKeys(Node(key, value), chain);
      assert chain' == [Node(key, value)] + chain;
      assert forall k :: Find(chain', k) == if k == key then Some(value) else Find(chain, k) by {
        forall k ensures Find(chain', k) == if k == key then Some(value) else Find(chain, k) {
          assert chain'[1..] == chain;
        }
      }
    } else {
      OverwriteAtFirstIndex(chain, key, value);
      assert UniqueKeys(chain');
    }
    assert forall k :: Slot(r, k) == Slot(t, k);
  }

  /** On the abstract map, `Store` is the update `key := value`. */
  lemma StoreContents<K(!new), V>(t: Table<K, V>, key: K, value: V)
    requires Valid(t)
    ensures Valid(Store(t, key, value))
    ensures Contents(Store(t, key, value)) == Contents(t)[key := value]
    ensures Store(t, key, value).count == t.count + (if key in Contents(t) then 0 else 1)
  {
    StoreSpec(t, key, value);
    var t' := Store(t, key, value);
    var m := Contents(t)[key := value];
    forall k ensures TryGetValue(t', k) == if k in m then Some(m[k]) else None {
      if k != key {
        assert TryGetValue(t', k) == TryGetValue(t, k);
      }
    }
    ContentsFromLookups(t', m);
  }

  /** `Resize(newCapacity)` in its loop's node-by-node step: prepend one node to the
      chain of its key under the current capacity, and count it. */
  function InsertRehashed<K(==, !new), V>(t: Table<K, V>, n: Node<K, V>): (r: Table<K, V>)
    requires WellFormed(t)
    ensures WellFormed(r) && r.hash == t.hash && Capacity(r) == Capacity(t) && r.maxLoadFactor == t.maxLoadFactor
    ensures r.buckets[Slot(t, n.key)] == [n] + t.buckets[Slot(t, n.key)]
    ensures forall i :: 0 <= i < Capacity(t) && i != Slot(t, n.key) ==> r.buckets[i] == t.buckets[i]
    ensures r.count == t.count + 1
  {
    var idx := Slot(t, n.key);
    t.(buckets := t.buckets[idx := [n] + t.buckets[idx]], count := t.count + 1)
  }

  /** The loop of `Resize`: `InsertRehashed` for each node in turn. */
  function RehashAll<K(==, !new), V>(t: Table<K, V>, nodes: Chain<K, V>): (r: Table<K, V>)
    requires WellFormed(t)
    ensures WellFormed(r) && r.hash == t.hash && Capacity(r) == Capacity(t) && r.maxLoadFactor == t.maxLoadFactor
    decreases |nodes|
  {
    if |nodes| == 0 then t else RehashAll(InsertRehashed(t, nodes[0]), nodes[1..])
  }

  /** Rehashing loses no node and invents none: the nodes of the result are those of the
      table plus the rehashed ones, and the count grows by their number. */
  lemma {:induction false} RehashAllKeepsNodes<K(!new), V>(t: Table<K, V>, nodes: Chain<K, V>)
    requires WellFormed(t)
    ensures multiset(Flatten(RehashAll(t, nodes).buckets)) == multiset(Flatten(t.buckets)) + multiset(nodes)
    ensures RehashAll(t, nodes).count == t.count + |nodes|
    decreases |nodes|
  {
    if |nodes| > 0 {
      var t1 := InsertRehashed(t, nodes[0]);
      FlattenPrependNodes(t.buckets, Slot(t, nodes[0].key), nodes[0]);
      assert t1.buckets == t.buckets[Slot(t, nodes[0].key) := [nodes[0]] + t.buckets[Slot(t, nodes[0].key)]];
      RehashAllKeepsNodes(t1, nodes[1..]);
      assert nodes == [nodes[0]] + nodes[1..];
    }
  }

  /** Rehashing duplicate-free nodes whose keys the table lacks keeps the invariant,
      counts every node, and adds exactly those bindings. */
  lemma {:induction false} RehashAllSpec<K(!new), V>(t: Table<K, V>, nodes: Chain<K, V>)
    requires Valid(t)
    requires UniqueKeys(nodes)
    requires forall j :: 0 <= j < |nodes| ==> TryGetValue(t, nodes[j].key).None?
    ensures Valid(RehashAll(t, nodes))
    ensures RehashAll(t, nodes).count == t.count + |nodes|
    ensures forall key ::
              TryGetValue(RehashAll(t, nodes), key) ==
              if Find(nodes, key).Some? then Find(nodes, key) else TryGetValue(t, key)
    decreases |nodes|
  {
    if |nodes| > 0 {
      var n := nodes[0];
      var t1 := InsertRehashed(t, n);
      assert t1 == Store(t, n.key, n.value);
      StoreSpec(t, n.key, n.value);
      var rest := nodes[1..];
      forall j | 0 <= j < |rest|
        ensures TryGetValue(t1, rest[j].key).None?
      {
        assert rest[j] == nodes[j + 1];
      }
      RehashAllSpec(t1, rest);
    }
  }

  /** `Resize(newCapacity)`: reject a non-positive capacity before touching anything;
      otherwise start from `newCapacity` empty chains and a count of 0, and rehash every
      node, bucket by bucket, each chain from its head. */
  function Resize<K(==, !new), V>(t: Table<K, V>, newCapacity: int32): (r: Result<Table<K, V>>)
    requires WellFormed(t)
    ensures r.Err? <==> newCapacity <= 0
    ensures r.Err? ==> r.error == ArgumentOutOfRange("newCapacity")
    ensures r.Ok? ==> WellFormed(r.value) && Capacity(r.value) == newCapacity as int
    ensures r.Ok? ==> r.value.hash == t.hash && r.value.maxLoadFactor == t.maxLoadFactor
  {
    if newCapacity <= 0 then
      Err(ArgumentOutOfRange("newCapacity"))
    else
      Ok(RehashAll(t.(buckets := seq(newCapacity, _ => []), count := 0), Flatten(t.buckets)))
  }

  /** A resize of a valid table keeps the invariant for the new capacity (every node in
      chain `Index(key, newCapacity)`), keeps `Count`, and keeps every binding. */
  lemma ResizeSpec<K(!new), V>(t: Table<K, V>, newCapacity: int32)
    requires Valid(t)
    requires newCapacity > 0
    ensures Valid(Resize(t, newCapacity).value)
    ensures Resize(t, newCapacity).value.count == t.count
    ensures forall key :: TryGetValue(Resize(t, newCapacity).value, key) == TryGetValue(t, key)
    ensures Contents(Resize(t, newCapacity).value) == Contents(t)
  {
    var empty := t.(buckets := seq(newCapacity, _ => []), count := 0);
    FlattenEmpty(empty.buckets);
    assert forall key :: TryGetValue(empty, key).None?;
    var nodes := Flatten(t.buckets);
    KeysUniqueInTable(t);
    RehashAllSpec(empty, nodes);
    SameLookupsSameContents(Resize(t, newCapacity).value, t);
  }

  /** `AddOrUpdate(key, value)`: if one more entry would exceed the maximum load factor,
      resize to `Capacity * 2` first (an `int` product, which wraps to a non-positive
      value from 2^30 buckets on, so that `Resize` throws); then store. The test comes
      before the lookup, so even an update of a present key can grow the table. */
  function AddOrUpdate<K(==, !new), V>(t: Table<K, V>, key: K, value: V): (r: Result<Table<K, V>>)
    requires WellFormed(t)
    ensures r.Err? <==> NeedsResize(t, t.count + 1) && Capacity(t) >= 0x4000_0000
    ensures r.Err? ==> r.error == ArgumentOutOfRange("newCapacity")
    ensures r.Ok? ==> Capacity(r.value) == if NeedsResize(t, t.count + 1) then 2 * Capacity(t) else Capacity(t)
    ensures r.Ok? ==> r.value.hash == t.hash && r.value.maxLoadFactor == t.maxLoadFactor
  {
    var grown :- if NeedsResize(t, t.count + 1) then Resize(t, WrapInt32(Capacity(t) * 2)) else Ok(t);
    Ok(Store(grown, key, value))
  }

  /** After `AddOrUpdate(key, value)` the table is valid, maps `key` to `value` and every
      other key as before, and has one more node exactly when `key` was absent. */
  lemma AddOrUpdateSpec<K(!new), V>(t: Table<K, V>, key: K, value: V)
    requires Valid(t)
    ensures AddOrUpdate(t, key, value).Ok? ==>
      var t' := AddOrUpdate(t, key, value).value;
      && Valid(t')
      && TryGetValue(t', key) == Some(value)
      && (forall k :: k != key ==> TryGetValue(t', k) == TryGetValue(t, k))
      && Contents(t') == Contents(t)[key := value]
      && t'.count == t.count + (if key in Contents(t) then 0 else 1)
  {
    var r := AddOrUpdate(t, key, value);
    if r.Ok? {
      var grown := if NeedsResize(t, t.count + 1) then Resize(t, WrapInt32(Capacity(t) * 2)).value else t;
      if NeedsResize(t, t.count + 1) {
        ResizeSpec(t, WrapInt32(Capacity(t) * 2));
      }
      assert Valid(grown) && Contents(grown) == Contents(t) && grown.count == t.count;
      assert forall k :: TryGetValue(grown, k) == TryGetValue(t, k);
      assert r.value == Store(grown, key, value);
      StoreSpec(grown, key, value);
      StoreContents(grown, key, value);
    }
  }

  /** `Remove(key)`: walk chain `Index(key, Capacity)`; on the first node with `key`,
      unlink it, uncount it and answer true; otherwise answer false. The capacity never
      shrinks. */
  function Remove<K(==, !new), V>(t: Table<K, V>, key: K): (r: (bool, Table<K, V>))
    requires WellFormed(t)
    ensures WellFormed(r.1) && r.1.hash == t.hash && Capacity(r.1) == Capacity(t) && r.1.maxLoadFactor == t.maxLoadFactor
    ensures !r.0 ==> r.1 == t
  {
    var idx := Slot(t, key);
    var chain := t.buckets[idx];
    if Find(chain, key).Some? then
      (true, t.(buckets := t.buckets[idx := Unlink(chain, key)], count := t.count - 1))
    else
      (false, t)
  }

  /** After `Remove(key)` the table is valid and `key` is gone; the answer says whether
      it was present; `Count` drops by one exactly then; every other key is untouched. */
  lemma RemoveSpec<K(!new), V>(t: Table<K, V>, key: K)
    requires Valid(t)
    ensures Valid(Remove(t, key).1)
    ensures Remove(t, key).0 <==> key in Contents(t)
    ensures Remove(t, key).1.count == t.count - (if Remove(t, key).0 then 1 else 0)
    ensures TryGetValue(Remove(t, key).1, key) == None
    ensures forall k :: k != key ==> TryGetValue(Remove(t, key).1, k) == TryGetValue(t, k)
    ensures Contents(Remove(t, key).1) == Contents(t) - {key}
    ensures forall i :: 0 <= i < Capacity(t) && i != Slot(t, key) ==> Remove(t, key).1.buckets[i] == t.buckets[i]
    ensures Remove(t, key).0 ==>
      && HasKey(t.buckets[Slot(t, key)], key)
      && Remove(t, key).1.buckets[Slot(t, key)] ==
         Omit(t.buckets[Slot(t, key)], FirstIndex(t.buckets[Slot(t, key)], key))
  {
    RemoveKeepsValid(t, key);
    RemoveChains(t, key);
    var r := Remove(t, key).1;
    var m := Contents(t) - {key};
    forall k ensures TryGetValue(r, k) == if k in m then Some(m[k]) else None {
      if k != key {
        assert TryGetValue(r, k) == TryGetValue(t, k);
      }
    }
    ContentsFromLookups(r, m);
  }

  /** The table `Remove` leaves is valid, and only the removed key answers differently. */
  lemma RemoveKeepsValid<K(!new), V>(t: Table<K, V>, key: K)
    requires Valid(t)
    ensures Valid(Remove(t, key).1)
    ensures Remove(t, key).0 <==> Find(t.buckets[Slot(t, key)], key).Some?
    ensures Remove(t, key).1.count == t.count - (if Remove(t, key).0 then 1 else 0)
    ensures TryGetValue(Remove(t, key).1, key) == None
    ensures forall k :: k != key ==> TryGetValue(Remove(t, key).1, k) == TryGetValue(t, k)
  {
    var r := Remove(t, key).1;
    var idx := Slot(t, key);
    var chain := t.buckets[idx];
    if Find(chain, key).Some? {
      var chain' := Unlink(chain, key);
      assert r.buckets == t.buckets[idx := chain'];
      FlattenUpdateLength(t.buckets, idx, chain');
      assert forall k :: Slot(r, k) == Slot(t, k);
      forall i, j | 0 <= i < |r.buckets| && 0 <= j < |r.buckets[i]|
        ensures r.hash(r.buckets[i][j].key, |r.buckets| as int32).Ok?
        ensures r.hash(r.buckets[i][j].key, |r.buckets| as int32).value == i
      {
        if i == idx {
          assert HasKey(chain, chain'[j].key);
        }
      }
      assert Valid(r);
    }
  }

  /** `Remove` touches only the key's chain, and there it drops exactly the node the walk
      meets first, keeping the order of the others. */
  lemma RemoveChains<K(!new), V>(t: Table<K, V>, key: K)
    requires WellFormed(t)
    ensures forall i :: 0 <= i < Capacity(t) && i != Slot(t, key) ==> Remove(t, key).1.buckets[i] == t.buckets[i]
    ensures Remove(t, key).0 ==>
      && HasKey(t.buckets[Slot(t, key)], key)
      && Remove(t, key).1.buckets[Slot(t, key)] ==
         Omit(t.buckets[Slot(t, key)], FirstIndex(t.buckets[Slot(t, key)], key))
  {
    var chain := t.buckets[Slot(t, key)];
    if Find(chain, key).Some? {
      UnlinkKeepsOrder(chain, key);
    }
  }

  /** `Search(key, out value, out comparisons)`: the lookup of `TryGetValue`, counting
      one comparison per visited node. A hit reports the position of the node found
      (every earlier node has another key); a miss has visited the whole chain. */
  method Search<K(==, !new), V>(t: Table<K, V>, key: K) returns (r: Option<V>, comparisons: nat)
    requires WellFormed(t)
    ensures r == TryGetValue(t, key)
    ensures comparisons <= |t.buckets[Slot(t, key)]|
    ensures r.None? ==> comparisons == |t.buckets[Slot(t, key)]|
    ensures r.Some? ==> 0 < comparisons && t.buckets[Slot(t, key)][comparisons - 1] == Node(key, r.value)
    ensures forall j :: 0 <= j < comparisons - 1 ==> t.buckets[Slot(t, key)][j].key != key
  {
    var chain := t.buckets[Slot(t, key)];
    comparisons := 0;
    while comparisons < |chain|
      invariant comparisons <= |chain|
      invariant forall j :: 0 <= j < comparisons ==> chain[j].key != key
      invariant Find(chain[comparisons..], key) == Find(chain, key)
    {
      var current := chain[comparisons];
      comparisons := comparisons + 1;
      if current.key == key {
        return Some(current.value), comparisons;
      }
      assert chain[comparisons - 1..][1..] == chain[comparisons..];
    }
    return None, comparisons;
  }

  /** A key just stored for the first time heads its chain, so `Search` finds it with a
      single comparison. */
  method SearchFreshlyStored<K(==, !new), V>(t: Table<K, V>, key: K, value: V) returns (r: Option<V>, comparisons: nat)
    requires Valid(t)
    requires TryGetValue(t, key).None?
    ensures r == Some(value)
    ensures comparisons == 1
  {
    StoreSpec(t, key, value);
    var t' := Store(t, key, value);
    assert Slot(t', key) == Slot(t, key);
    r, comparisons := Search(t', key);
  }

  /** `m` is the length of a longest chain. */
  ghost predicate IsLongest<K, V>(bs: seq<Chain<K, V>>, m: nat) {
    && (exists i :: 0 <= i < |bs| && |bs[i]| == m)
    && (forall i :: 0 <= i < |bs| ==> |bs[i]| <= m)
  }

  /** `m` is the length of a shortest chain, empty ones included. */
  ghost predicate IsShortest<K, V>(bs: seq<Chain<K, V>>, m: nat) {
    && (exists i :: 0 <= i < |bs| && |bs[i]| == m)
    && (forall i :: 0 <= i < |bs| ==> m <= |bs[i]|)
  }

  /** `m` is the length of a shortest non-empty chain. */
  ghost predicate IsShortestNonEmpty<K, V>(bs: seq<Chain<K, V>>, m: nat) {
    && m > 0
    && (exists i :: 0 <= i < |bs| && |bs[i]| == m)
    && (forall i :: 0 <= i < |bs| && |bs[i]| > 0 ==> m <= |bs[i]|)
  }

  /** `GetChainLengthStats(ignoreEmpty, out min, out max)`: (0, 0) for an empty table;
      otherwise `max` is the longest chain and `min` the shortest chain, over all
      buckets or, with `ignoreEmpty`, over the non-empty ones. */
  method GetChainLengthStats<K(!new), V>(t: Table<K, V>, ignoreEmpty: bool) returns (min: nat, max: nat)
    requires Valid(t)
    ensures t.count == 0 ==> min == 0 && max == 0
    ensures t.count > 0 ==> IsLongest(t.buckets, max)
    ensures t.count > 0 && !ignoreEmpty ==> IsShortest(t.buckets, min)
    ensures t.count > 0 && ignoreEmpty ==> IsShortestNonEmpty(t.buckets, min)
    ensures min <= max
  {
    if t.count == 0 {
      return 0, 0;
    }
    var minAll: Option<nat> := None;
    var minNonEmpty: Option<nat> := None;
    max := 0;
    var i := 0;
    while i < |t.buckets|
      invariant 0 <= i <= |t.buckets|
      invariant forall b :: 0 <= b < i ==> |t.buckets[b]| <= max
      invariant i > 0 ==> exists b :: 0 <= b < i && |t.buckets[b]| == max
      invariant i == 0 ==> max == 0
      invariant !ignoreEmpty ==> minNonEmpty.None?
      invariant ignoreEmpty ==> minAll.None?
      invariant !ignoreEmpty && i > 0 ==> minAll.Some?
      invariant minAll.Some? ==> exists b :: 0 <= b < i && |t.buckets[b]| == minAll.value
      invariant minAll.Some? ==> forall b :: 0 <= b < i ==> minAll.value <= |t.buckets[b]|
      invariant minNonEmpty.Some? ==> minNonEmpty.value > 0
      invariant minNonEmpty.Some? ==> exists b :: 0 <= b < i && |t.buckets[b]| == minNonEmpty.value
      invariant minNonEmpty.Some? ==> forall b :: 0 <= b < i && |t.buckets[b]| > 0 ==> minNonEmpty.value <= |t.buckets[b]|
      invariant ignoreEmpty && minNonEmpty.None? ==> forall b :: 0 <= b < i ==> |t.buckets[b]| == 0
    {
      var length := |t.buckets[i]|;
      if length > max {
        max := length;
      }
      if !ignoreEmpty {
        if minAll.None? || length < minAll.value {
          minAll := Some(length);
        }
      } else if length != 0 {
        if minNonEmpty.None? || length < minNonEmpty.value {
          minNonEmpty := Some(length);
        }
      }
      i := i + 1;
    }
    NonEmptyChainExists(t.buckets);
    min := if ignoreEmpty then minNonEmpty.GetOr(0) else minAll.GetOr(0);
  }

  /** Without growth `AddOrUpdate` keeps `Count <= MaxLoadFactor * Capacity`; a single
      doubling keeps it too, provided the table held at least one entry's worth of
      load (`MaxLoadFactor * Capacity >= 1`) before the call. */
  lemma AddOrUpdateKeepsLoadBound<K(!new), V>(t: Table<K, V>, key: K, value: V)
    requires Valid(t)
    requires LoadFactor(t) <= t.maxLoadFactor
    requires t.maxLoadFactor * Capacity(t) as real >= 1.0
    ensures AddOrUpdate(t, key, value).Ok? ==>
      LoadFactor(AddOrUpdate(t, key, value).value) <= t.maxLoadFactor
  {
    if AddOrUpdate(t, key, value).Ok? {
      var grew := AddOrUpdateStep(t, key, value);
      LoadBoundStep(t, AddOrUpdate(t, key, value).value, grew);
    }
  }

  /** The numbers of one successful `AddOrUpdate`: the count grows by at most one, and
      the capacity doubles when the resize test fires; otherwise it stays, and the new
      count is within the maximum load factor. */
  lemma AddOrUpdateStep<K(!new), V>(t: Table<K, V>, key: K, value: V) returns (grew: bool)
    requires Valid(t)
    requires AddOrUpdate(t, key, value).Ok?
    ensures AddOrUpdate(t, key, value).value.count <= t.count + 1
    ensures grew ==> Capacity(AddOrUpdate(t, key, value).value) == 2 * Capacity(t)
    ensures !grew ==> Capacity(AddOrUpdate(t, key, value).value) == Capacity(t)
    ensures !grew ==> (t.count + 1) as real / Capacity(t) as real <= t.maxLoadFactor
  {
    AddOrUpdateCountStep(t, key, value);
    grew := NeedsResize(t, t.count + 1);
  }

  /** From a table within its load bound to one with at most one more entry, in the same
      buckets when that entry fits and in twice as many otherwise, the bound still holds
      when `maxLoadFactor * Capacity >= 1`. */
  lemma LoadBoundStep<K, V>(t: Table<K, V>, t': Table<K, V>, grew: bool)
    requires Capacity(t) > 0 && 0 <= t.count && t'.count <= t.count + 1
    requires LoadFactor(t) <= t.maxLoadFactor
    requires t.maxLoadFactor * Capacity(t) as real >= 1.0
    requires grew ==> Capacity(t') == 2 * Capacity(t)
    requires !grew ==> Capacity(t') == Capacity(t) && (t.count + 1) as real / Capacity(t) as real <= t.maxLoadFactor
    ensures LoadFactor(t') <= t.maxLoadFactor
  {
    LoadArithmetic(t.count, t'.count, Capacity(t), Capacity(t'), t.maxLoadFactor, grew);
  }

  /** `AddOrUpdate` adds at most one node. */
  lemma AddOrUpdateCountStep<K(!new), V>(t: Table<K, V>, key: K, value: V)
    requires Valid(t)
    ensures AddOrUpdate(t, key, value).Ok? ==> AddOrUpdate(t, key, value).value.count <= t.count + 1
  {
    AddOrUpdateSpec(t, key, value);
  }

  /** The arithmetic of `AddOrUpdateKeepsLoadBound`: from `n` entries in `c` buckets to
      at most `n + 1` entries in `c'` buckets, `c' = 2c` after growth, `c' = c` otherwise. */
  lemma LoadArithmetic(n: int, n': int, c: nat, c': nat, mlf: real, grew: bool)
    requires 0 <= n && n' <= n + 1 && c > 0
    requires n as real / c as real <= mlf
    requires mlf * c as real >= 1.0
    requires grew ==> c' == 2 * c
    requires !grew ==> c' == c && (n + 1) as real / c as real <= mlf
    ensures n' as real / c' as real <= mlf
  {
    DivBound(n as real, c as real, mlf);
    if grew {
      assert n' as real <= mlf * c as real + 1.0 <= mlf * c' as real;
    } else {
      DivBound((n + 1) as real, c as real, mlf);
    }
    DivBound(n' as real, c' as real, mlf);
  }

  /** For a positive denominator, `a / c <= m` is `a <= m * c`. */
  lemma DivBound(a: real, c: real, m: real)
    requires c > 0.0
    ensures a / c <= m <==> a <= m * c
  {
    if a / c <= m {
      assert a == (a / c) * c;
    }
  }

  /** With capacity 1 and maximum load factor 0.1 the first insertion doubles once and
      still ends at load 1/2: one doubling does not restore the bound in general. */
  lemma LoadBoundNeedsHypothesis<K(!new), V>(hash: HashIndex<K>, key: K, value: V)
    requires Satisfies(hash)
    ensures New<K, V>(hash, 1, 0.1).Ok?
    ensures var t := AddOrUpdate(New<K, V>(hash, 1, 0.1).value, key, value);
      t.Ok? && t.value.count == 1 && Capacity(t.value) == 2 && LoadFactor(t.value) > 0.1
  {
    var t := New<K, V>(hash, 1, 0.1).value;
    AddOrUpdateSpec(t, key, value);
  }

  /** `Count < Capacity` holds from construction on: growth happens before the count
      could reach the capacity, since the maximum load factor is below 1. */
  lemma AddOrUpdateKeepsCountBelowCapacity<K(!new), V>(t: Table<K, V>, key: K, value: V)
    requires Valid(t)
    requires t.count < Capacity(t)
    ensures AddOrUpdate(t, key, value).Ok? ==>
      AddOrUpdate(t, key, value).value.count < Capacity(AddOrUpdate(t, key, value).value)
  {
    var r := AddOrUpdate(t, key, value);
    if r.Ok? {
      AddOrUpdateCountStep(t, key, value);
      if !NeedsResize(t, t.count + 1) {
        BelowOne(t.count + 1, Capacity(t), t.maxLoadFactor);
      }
    }
  }

  /** `k / c <= mlf < 1` makes `k` smaller than `c`. */
  lemma BelowOne(k: int, c: nat, mlf: real)
    requires c > 0
    requires mlf < 1.0
    requires k as real / c as real <= mlf
    ensures k < c
  {
    DivBound(k as real, c as real, mlf);
    assert k as real <= mlf * c as real < c as real;
  }

  /** Storing a key twice keeps the count of the first store and answers the second value. */
  lemma OverwriteRoundTrip<K(!new), V>(t: Table<K, V>, key: K, v1: V, v2: V)
    requires Valid(t)
    requires AddOrUpdate(t, key, v1).Ok?
    ensures var t1 := AddOrUpdate(t, key, v1).value;
      AddOrUpdate(t1, key, v2).Ok? ==>
        AddOrUpdate(t1, key, v2).value.count == t1.count &&
        TryGetValue(AddOrUpdate(t1, key, v2).value, key) == Some(v2)
  {
    var t1 := AddOrUpdate(t, key, v1).value;
    AddOrUpdateSpec(t, key, v1);
    AddOrUpdateSpec(t1, key, v2);
  }
}
