/** One bucket's chain of the chained hash table: a singly-linked list, modelled as the
    sequence of its nodes from the head. Each function here is one of the chain walks
    of `ChainedHashTable.cs`. */
module Chains {
  import opened Outcome

  datatype Node<K, V> = Node(key: K, value: V)

  type Chain<K, V> = seq<Node<K, V>>

  /** No key occurs twice in the chain. */
  ghost predicate UniqueKeys<K, V>(c: Chain<K, V>) {
    forall i, j :: 0 <= i < j < |c| ==> c[i].key != c[j].key
  }

  /** Some node of the chain carries `key`. */
  ghost predicate HasKey<K, V>(c: Chain<K, V>, key: K) {
    exists j :: 0 <= j < |c| && c[j].key == key
  }

  /** The lookup walk: from the head, the value of the first node whose key is `key`. */
  function Find<K(==, !new), V>(c: Chain<K, V>, key: K): (r: Option<V>)
    ensures r.None? <==> !HasKey(c, key)
    ensures r.Some? ==> exists j :: 0 <= j < |c| && c[j].key == key && c[j].value == r.value
  {
    if |c| == 0 then None
    else if c[0].key == key then Some(c[0].value)
    else
      assert forall j :: 0 < j < |c| ==> c[j] == c[1..][j - 1];
      Find(c[1..], key)
  }

  /** The position at which the walk from the head first meets `key`. */
  function FirstIndex<K(==, !new), V>(c: Chain<K, V>, key: K): (j: nat)
    requires HasKey(c, key)
    ensures j < |c| && c[j].key == key
    ensures forall i :: 0 <= i < j ==> c[i].key != key
  {
    if c[0].key == key then 0
    else
      assert HasKey(c[1..], key) by {
        var j :| 0 <= j < |c| && c[j].key == key;
        assert c[1..][j - 1] == c[j];
      }
      1 + FirstIndex(c[1..], key)
  }

  /** The overwrite of `AddOrUpdate`: the first node with `key` takes `value`; the
      chain keeps its nodes, its order and its keys. */
  function Overwrite<K(==, !new), V>(c: Chain<K, V>, key: K, value: V): (r: Chain<K, V>)
    ensures !HasKey(c, key) ==> r == c
    ensures |r| == |c|
    ensures forall j :: 0 <= j < |c| ==> r[j].key == c[j].key
    ensures HasKey(c, key) ==> Find(r, key) == Some(value)
    ensures forall k :: k != key ==> Find(r, k) == Find(c, k)
  {
    if |c| == 0 then []
    else if c[0].key == key then [Node(key, value)] + c[1..]
    else
      var rest := Overwrite(c[1..], key, value);
      assert forall j :: 0 < j < |c| ==> c[j] == c[1..][j - 1];
      [c[0]] + rest
  }

  /** The overwrite touches exactly the node the walk meets first: it is replaced, in
      place, by one carrying the new value, and every other node stays where it was. */
  lemma {:induction false} OverwriteAtFirstIndex<K(!new), V>(c: Chain<K, V>, key: K, value: V)
    requires HasKey(c, key)
    ensures Overwrite(c, key, value) == c[FirstIndex(c, key) := Node(key, value)]
  {
    if c[0].key != key {
      var j :| 0 <= j < |c| && c[j].key == key;
      assert c[1..][j - 1] == c[j];
      var k := FirstIndex(c[1..], key);
      OverwriteAtFirstIndex(c[1..], key, value);
      assert FirstIndex(c, key) == k + 1;
      ConsUpdate(c, k, Node(key, value));
    }
  }

  /** Putting the head back in front of the tail with its element `k` replaced is the
      whole sequence with its element `k + 1` replaced. */
  lemma ConsUpdate<T>(c: seq<T>, k: nat, x: T)
    requires k + 1 < |c|
    ensures [c[0]] + c[1..][k := x] == c[k + 1 := x]
  {
  }

  /** The unlinking of `Remove`: the first node with `key` leaves the chain, through
      the head pointer or its predecessor's link; without such a node nothing changes. */
  function Unlink<K(==, !new), V>(c: Chain<K, V>, key: K): (r: Chain<K, V>)
    ensures HasKey(c, key) ==> |r| == |c| - 1
    ensures !HasKey(c, key) ==> r == c
    ensures forall k :: k != key ==> Find(r, k) == Find(c, k)
    ensures forall j :: 0 <= j < |r| ==> HasKey(c, r[j].key)
    ensures UniqueKeys(c) ==> UniqueKeys(r) && !HasKey(r, key)
  {
    if |c| == 0 then []
    else if c[0].key == key then
      assert forall j :: 0 < j < |c| ==> c[j] == c[1..][j - 1];
      c[1..]
    else
      var rest := Unlink(c[1..], key);
      assert forall j :: 0 < j < |c| ==> c[j] == c[1..][j - 1];
      [c[0]] + rest
  }

  /** The sequence without its element `j`: the elements before it, then those after it. */
  function Omit<T>(c: seq<T>, j: nat): seq<T>
    requires j < |c|
  {
    c[..j] + c[j + 1..]
  }

  /** `Unlink` removes exactly the node the walk meets first and keeps the order of all
      the others: the nodes before it, then the nodes after it. */
  lemma {:induction false} UnlinkKeepsOrder<K(!new), V>(c: Chain<K, V>, key: K)
    requires HasKey(c, key)
    ensures Unlink(c, key) == Omit(c, FirstIndex(c, key))
  {
    if c[0].key == key {
      assert Omit(c, 0) == c[1..];
    } else {
      var j :| 0 <= j < |c| && c[j].key == key;
      assert c[1..][j - 1] == c[j];
      var k := FirstIndex(c[1..], key);
      UnlinkKeepsOrder(c[1..], key);
      ConsOmitting(c, k);
    }
  }

  /** Putting the head back in front of the tail with its element `k` left out is the
      whole sequence with its element `k + 1` left out. */
  lemma ConsOmitting<T>(c: seq<T>, k: nat)
    requires k + 1 < |c|
    ensures [c[0]] + Omit(c[1..], k) == Omit(c, k + 1)
  {
    assert [c[0]] + c[1..][..k] == c[..k + 1];
    assert c[1..][k + 1..] == c[k + 2..];
  }

  /** A chain with a new node at its head, as `AddOrUpdate` and the rehash build it. */
  lemma PrependKeepsUniqueKeys<K, V>(n: Node<K, V>, c: Chain<K, V>)
    requires UniqueKeys(c)
    requires !HasKey(c, n.key)
    ensures UniqueKeys([n] + c)
  {
    var r := [n] + c;
    forall i, j | 0 <= i < j < |r|
      ensures r[i].key != r[j].key
    {
      assert r[j] == c[j - 1];
      if i > 0 {
        assert r[i] == c[i - 1];
      }
    }
  }

  /** Looking up in the concatenation of two chains looks in the first, then the second. */
  lemma {:induction false} FindConcat<K(!new), V>(a: Chain<K, V>, b: Chain<K, V>, key: K)
    ensures Find(a + b, key) == if Find(a, key).Some? then Find(a, key) else Find(b, key)
    decreases |a|
  {
    if |a| > 0 {
      assert (a + b)[1..] == a[1..] + b;
      FindConcat(a[1..], b, key);
    } else {
      assert a + b == b;
    }
  }

  /** Two chains without keys in common and without repeated keys concatenate into a
      chain without repeated keys. */
  lemma UniqueKeysConcat<K, V>(a: Chain<K, V>, b: Chain<K, V>)
    requires UniqueKeys(a) && UniqueKeys(b)
    requires forall x, y :: 0 <= x < |a| && 0 <= y < |b| ==> a[x].key != b[y].key
    ensures UniqueKeys(a + b)
  {
    var r := a + b;
    forall i, j | 0 <= i < j < |r|
      ensures r[i].key != r[j].key
    {
      if j < |a| {
        assert r[i] == a[i] && r[j] == a[j];
      } else if i < |a| {
        assert r[i] == a[i] && r[j] == b[j - |a|];
      } else {
        assert r[i] == b[i - |a|] && r[j] == b[j - |a|];
      }
    }
  }

  /** In a chain without repeated keys a lookup finds exactly the node that has the key. */
  lemma FindInUniqueChain<K(!new), V>(c: Chain<K, V>, j: int)
    requires UniqueKeys(c)
    requires 0 <= j < |c|
    ensures Find(c, c[j].key) == Some(c[j].value)
  {
  }
}
