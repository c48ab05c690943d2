/** A worked example of the chained table: capacity 4, maximum load factor 0.75, four keys. */
module Scenario {
  import opened CSharpInt
  import opened Outcome
  import opened HashStrategy
  import DivisionHash
  import opened ChainedHashTable

  /** The table after inserting keys `a`, `b` and `c` (each mapped to itself). */
  function ThreeKeys<K(==, !new)>(hash: HashIndex<K>, a: K, b: K, c: K): Result<Table<K, K>>
    requires Satisfies(hash)
  {
    var t0 :- New(hash, 4, 0.75);
    var t1 :- AddOrUpdate(t0, a, a);
    var t2 :- AddOrUpdate(t1, b, b);
    AddOrUpdate(t2, c, c)
  }

  /** The same table after inserting `d` as well. */
  function FourKeys<K(==, !new)>(hash: HashIndex<K>, a: K, b: K, c: K, d: K): Result<Table<K, K>>
    requires Satisfies(hash)
  {
    var t3 :- ThreeKeys(hash, a, b, c);
    AddOrUpdate(t3, d, d)
  }

  /** One insertion of a fresh key, with or without growth, seen through the table's
      contract only. */
  lemma InsertFresh<K(!new), V>(t: Table<K, V>, key: K, value: V)
    requires Valid(t) && key !in Contents(t) && Capacity(t) < 0x4000_0000
    ensures AddOrUpdate(t, key, value).Ok?
    ensures var t' := AddOrUpdate(t, key, value).value;
      && Valid(t')
      && t'.count == t.count + 1
      && Capacity(t') == (if NeedsResize(t, t.count + 1) then 2 * Capacity(t) else Capacity(t))
      && t'.maxLoadFactor == t.maxLoadFactor
      && Contents(t') == Contents(t)[key := value]
  {
    AddOrUpdateSpec(t, key, value);
  }

  /** Three distinct keys fit without growth: 3/4 is not above 0.75. */
  lemma ThreeKeysFit<K(!new)>(hash: HashIndex<K>, a: K, b: K, c: K)
    requires Satisfies(hash)
    requires a != b && a != c && b != c
    ensures ThreeKeys(hash, a, b, c).Ok?
    ensures var t := ThreeKeys(hash, a, b, c).value;
      && Valid(t) && t.count == 3 && Capacity(t) == 4 && t.maxLoadFactor == 0.75
      && Contents(t) == map[a := a, b := b, c := c]
  {
    var t0 := New<K, K>(hash, 4, 0.75).value;
    assert Valid(t0) && Contents(t0) == map[] && t0.count == 0;
    assert Capacity(t0) == 4 && t0.maxLoadFactor == 0.75;
    LoadBelowLimit(t0, t0.count + 1);
    InsertFresh(t0, a, a);
    var t1 := AddOrUpdate(t0, a, a).value;
    assert Contents(t1) == map[a := a] && t1.count == 1;
    assert Capacity(t1) == 4 && t1.maxLoadFactor == 0.75;
    LoadBelowLimit(t1, t1.count + 1);
    InsertFresh(t1, b, b);
    var t2 := AddOrUpdate(t1, b, b).value;
    assert Contents(t2) == map[a := a, b := b] && t2.count == 2;
    assert Capacity(t2) == 4 && t2.maxLoadFactor == 0.75;
    LoadBelowLimit(t2, t2.count + 1);
    InsertFresh(t2, c, c);
    assert ThreeKeys(hash, a, b, c) == AddOrUpdate(t2, c, c);
  }

  /** With 4 buckets and load factor 0.75, up to three entries need no growth. */
  lemma LoadBelowLimit<K, V>(t: Table<K, V>, n: int)
    requires Capacity(t) == 4 && t.maxLoadFactor == 0.75
    requires n <= 3
    ensures !NeedsResize(t, n)
  {
    NeedsResizeMeaning(t, n);
  }

  /** With 4 buckets and load factor 0.75, a fourth entry needs growth. */
  lemma LoadAboveLimit<K, V>(t: Table<K, V>, n: int)
    requires Capacity(t) == 4 && t.maxLoadFactor == 0.75
    requires n >= 4
    ensures NeedsResize(t, n)
  {
    NeedsResizeMeaning(t, n);
  }

  /** A fourth distinct key would make the load 4/4, so the table first doubles to 8
      buckets and then holds four entries, every one still found. */
  lemma FourthKeyDoubles<K(!new)>(hash: HashIndex<K>, a: K, b: K, c: K, d: K)
    requires Satisfies(hash)
    requires a != b && a != c && b != c && d != a && d != b && d != c
    ensures FourKeys(hash, a, b, c, d).Ok?
    ensures var t := FourKeys(hash, a, b, c, d).value;
      && Valid(t) && t.count == 4 && Capacity(t) == 8
      && Contents(t) == map[a := a, b := b, c := c, d := d]
  {
    ThreeKeysFit(hash, a, b, c);
    var t3 := ThreeKeys(hash, a, b, c).value;
    LoadAboveLimit(t3, t3.count + 1);
    InsertFresh(t3, d, d);
  }

  /** The example with the division method and keys 1, 2, 3 and 7. */
  lemma DivisionRun()
    ensures FourKeys(DivisionHash.Index, 1, 2, 3, 7).Ok?
    ensures Capacity(ThreeKeys(DivisionHash.Index, 1, 2, 3).value) == 4
    ensures Capacity(FourKeys(DivisionHash.Index, 1, 2, 3, 7).value) == 8
  {
    DivisionHash.SatisfiesContract();
    ThreeKeysFit(DivisionHash.Index, 1, 2, 3);
    FourthKeyDoubles(DivisionHash.Index, 1, 2, 3, 7);
  }
}
