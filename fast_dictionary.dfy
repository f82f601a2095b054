/**
  FastReadOnlyDictionary: a build-once hash map with separate chaining.
  The bucket array holds one chain per slot; a chain's successive Next
  links are modelled as the order of a sequence, and appending to the last
  entry's Next as appending to that sequence. The key hash
  (EqualityComparer<TKey>.Default.GetHashCode) is a total function fixed
  when the dictionary is created; key equality is Dafny equality.
*/
module FastDictionary {
  import opened Wrappers
  import opened EnumerableExtensions

  /** The bucket-size hint used when the source does not expose its count. */
  const InitialSize: nat := 4

  // ---------------------------------------------------------------------
  // CalculateCapacity

  predicate IsPow2(n: int)
    decreases if n > 0 then n else 0
  {
    n == 1 || (n > 1 && n % 2 == 0 && IsPow2(n / 2))
  }

  /**
    (int)(collectionSize / 0.75f): the float quotient truncated to int,
    written as integer arithmetic.
  */
  function InitialCapacity(collectionSize: nat): nat {
    (4 * collectionSize) / 3
  }

  /** The power of two the doubling loop reaches from c when it stops at target. */
  function LeastPow2From(target: int, c: nat): (r: nat)
    requires IsPow2(c)
    ensures IsPow2(r) && r >= c && r >= target
    ensures r == c || r / 2 < target
    decreases if target > c then target - c else 0
  {
    if c >= target then c
    else
      assert (2 * c) / 2 == c;
      LeastPow2From(target, 2 * c)
  }

  /** What CalculateCapacity returns for a collection size. */
  function CapacityFor(collectionSize: nat): (r: nat)
    ensures IsPow2(r) && r >= 8 && r >= InitialCapacity(collectionSize)
  {
    var capacity := LeastPow2From(InitialCapacity(collectionSize), 1);
    if capacity < 8 then 8 else capacity
  }

  /** Between two powers of two, a smaller one is at most half of a larger one. */
  lemma {:induction false} Pow2Gap(a: int, b: int)
    requires IsPow2(a) && IsPow2(b) && b < a
    ensures 2 * b <= a
    decreases a
  {
    if b > 1 {
      Pow2Gap(a / 2, b / 2);
    }
  }

  /**
    CalculateCapacity returns the least power of two that is at least 8 and
    at least InitialCapacity(collectionSize).
  */
  lemma CapacityIsLeast(collectionSize: nat, p: int)
    requires IsPow2(p) && p >= 8 && p >= InitialCapacity(collectionSize)
    ensures CapacityFor(collectionSize) <= p
  {
    var r := CapacityFor(collectionSize);
    if r > p {
      Pow2Gap(r, p);
    }
  }

  /** Growing the collection never shrinks the capacity. */
  lemma CapacityMonotonic(m: nat, n: nat)
    requires m <= n
    ensures CapacityFor(m) <= CapacityFor(n)
  {
    CapacityIsLeast(m, CapacityFor(n));
  }

  /** CalculateCapacity: doubles from 1 until the load-factor target is reached, at least 8. */
  method CalculateCapacity(collectionSize: nat) returns (capacity: nat)
    ensures capacity == CapacityFor(collectionSize)
  {
    var initialCapacity := (4 * collectionSize) / 3;
    capacity := 1;
    while capacity < initialCapacity
      invariant IsPow2(capacity)
      invariant LeastPow2From(initialCapacity, capacity) == LeastPow2From(initialCapacity, 1)
      decreases initialCapacity - capacity
    {
      assert (2 * capacity) / 2 == capacity;
      capacity := capacity * 2;
    }
    if capacity < 8 {
      return 8;
    }
  }

  // ---------------------------------------------------------------------
  // Entries, chains and slots

  /**
    hash & (length - 1), as the non-negative remainder of hash by length.
    The two agree for a power-of-two length and a two's-complement hash;
    every bucket array the tables use has such a length (IsPow2 in Stores
    and ReadyToAdd), so Slot is only given those.
  */
  function Slot(hash: int, length: nat): (index: nat)
    requires length > 0
    ensures index < length
  {
    hash % length
  }

  /** An Entry: key, value and the hash computed when it was first added. */
  datatype Entry<K, V> = Entry(key: K, value: V, hash: int)

  /** The second argument addToBuckets is given: an entry being moved, or a value to wrap. */
  datatype Incoming<K, V> = Existing(entry: Entry<K, V>) | NewValue(value: V)

  /** The entry addToBuckets would link in for newKey. */
  function IncomingEntry<K, V>(hash: K -> int, newKey: K, incoming: Incoming<K, V>): Entry<K, V> {
    match incoming
    case Existing(e) => e
    case NewValue(v) => Entry(newKey, v, hash(newKey))
  }

  ghost predicate InChain<K, V>(chain: seq<Entry<K, V>>, k: K) {
    exists j :: 0 <= j < |chain| && chain[j].key == k
  }

  /** Every entry of chain i carries its key's hash, and that hash selects slot i. */
  ghost predicate ChainPlaced<K, V>(chain: seq<Entry<K, V>>, hash: K -> int, i: int, n: nat)
    requires n > 0
  {
    forall j :: 0 <= j < |chain| ==> chain[j].hash == hash(chain[j].key) && Slot(chain[j].hash, n) == i
  }

  /** Every entry carries its key's hash and sits in the chain its hash selects. */
  ghost predicate WellPlaced<K, V>(chains: seq<seq<Entry<K, V>>>, hash: K -> int) {
    && |chains| > 0
    && forall i :: 0 <= i < |chains| ==> ChainPlaced(chains[i], hash, i, |chains|)
  }

  ghost predicate ChainDistinct<K, V>(chain: seq<Entry<K, V>>) {
    forall j1, j2 :: 0 <= j1 < j2 < |chain| ==> chain[j1].key != chain[j2].key
  }

  /** No chain holds a key twice. */
  ghost predicate ChainsDistinct<K, V>(chains: seq<seq<Entry<K, V>>>) {
    forall i :: 0 <= i < |chains| ==> ChainDistinct(chains[i])
  }

  /** Every entry of the chain agrees with m. */
  ghost predicate ChainAgrees<K, V>(chain: seq<Entry<K, V>>, m: map<K, V>) {
    forall j :: 0 <= j < |chain| ==> chain[j].key in m && m[chain[j].key] == chain[j].value
  }

  /** The chains store exactly the map m: each entry agrees with m, each key of m is in its chain. */
  ghost predicate Represents<K, V>(chains: seq<seq<Entry<K, V>>>, hash: K -> int, m: map<K, V>) {
    && WellPlaced(chains, hash)
    && ChainsDistinct(chains)
    && (forall i :: 0 <= i < |chains| ==> ChainAgrees(chains[i], m))
    && (forall k :: k in m ==> InChain(chains[Slot(hash(k), |chains|)], k))
  }

  ghost predicate DistinctEntryKeys<K, V>(es: seq<Entry<K, V>>) {
    forall a, b :: 0 <= a < b < |es| ==> es[a].key != es[b].key
  }

  ghost function EmptyChains<K, V>(n: nat): seq<seq<Entry<K, V>>> {
    seq(n, i => [])
  }

  /** What addToBuckets does to the chains: link e in unless newKey is already in e's chain. */
  ghost function AddEntry<K, V>(chains: seq<seq<Entry<K, V>>>, newKey: K, e: Entry<K, V>): seq<seq<Entry<K, V>>>
    requires |chains| > 0
  {
    var s := Slot(e.hash, |chains|);
    if InChain(chains[s], newKey) then chains else chains[s := chains[s] + [e]]
  }

  /** The rehash loop: each old entry is moved, in order, with the chain test made against newKey. */
  ghost function Reinsert<K, V>(chains: seq<seq<Entry<K, V>>>, newKey: K, es: seq<Entry<K, V>>): (r: seq<seq<Entry<K, V>>>)
    requires |chains| > 0
    ensures |r| == |chains|
  {
    if es == [] then chains
    else AddEntry(Reinsert(chains, newKey, es[..|es| - 1]), newKey, es[|es| - 1])
  }

  // ---------------------------------------------------------------------
  // Facts about flattened chains

  lemma {:induction false} ConcatMembers<T>(ss: seq<seq<T>>, x: T)
    ensures x in Concat(ss) <==> exists i :: 0 <= i < |ss| && x in ss[i]
  {
    if ss != [] {
      var init := ss[..|ss| - 1];
      ConcatMembers(init, x);
      assert forall i :: 0 <= i < |init| ==> init[i] == ss[i];
    }
  }

  lemma {:induction false} ConcatUpdateLength<T>(ss: seq<seq<T>>, i: int, x: seq<T>)
    requires 0 <= i < |ss|
    ensures |Concat(ss[i := x])| == |Concat(ss)| - |ss[i]| + |x|
  {
    var n := |ss| - 1;
    var init := ss[..n];
    if i == n {
      assert ss[i := x][..n] == init;
    } else {
      ConcatUpdateLength(init, i, x);
      assert ss[i := x][..n] == init[i := x];
    }
  }

  lemma {:induction false} ConcatAllEmpty<T>(ss: seq<seq<T>>)
    requires forall i :: 0 <= i < |ss| ==> ss[i] == []
    ensures Concat(ss) == []
  {
    if ss != [] {
      ConcatAllEmpty(ss[..|ss| - 1]);
    }
  }

  /** Well-placed chains without repeats inside a chain have no repeated key anywhere. */
  lemma {:induction false} ConcatKeysDistinct<K, V>(chains: seq<seq<Entry<K, V>>>, hash: K -> int, k: nat)
    requires WellPlaced(chains, hash) && ChainsDistinct(chains) && k <= |chains|
    ensures var es := Concat(chains[..k]);
      && (forall a :: 0 <= a < |es| ==>
            es[a].hash == hash(es[a].key) && Slot(es[a].hash, |chains|) < k)
      && DistinctEntryKeys(es)
  {
    if k == 0 {
      assert chains[..0] == [];
    } else {
      ConcatKeysDistinct(chains, hash, k - 1);
      assert chains[..k] == chains[..k - 1] + [chains[k - 1]];
      ConcatSnoc(chains[..k - 1], chains[k - 1]);
      var pre, c := Concat(chains[..k - 1]), chains[k - 1];
      var es := pre + c;
      forall a | 0 <= a < |es|
        ensures es[a].hash == hash(es[a].key) && Slot(es[a].hash, |chains|) < k
      {
        if a >= |pre| {
          assert es[a] == chains[k - 1][a - |pre|];
        }
      }
      forall a, b | 0 <= a < b < |es|
        ensures es[a].key != es[b].key
      {
        if b >= |pre| {
          assert es[b] == chains[k - 1][b - |pre|];
          if a >= |pre| {
            assert es[a] == chains[k - 1][a - |pre|];
          } else {
            assert Slot(es[a].hash, |chains|) < k - 1;
          }
        }
      }
    }
  }

  // ---------------------------------------------------------------------
  // Linking one entry at the end of its chain

  /** The chains with e linked at the end of the chain its stored hash selects. */
  ghost function Append<K, V>(chains: seq<seq<Entry<K, V>>>, e: Entry<K, V>): seq<seq<Entry<K, V>>>
    requires |chains| > 0
  {
    var s := Slot(e.hash, |chains|);
    chains[s := chains[s] + [e]]
  }

  lemma InChainSnoc<K, V>(chain: seq<Entry<K, V>>, e: Entry<K, V>, k: K)
    ensures InChain(chain + [e], k) <==> InChain(chain, k) || e.key == k
  {
    if InChain(chain + [e], k) {
      var j :| 0 <= j < |chain + [e]| && (chain + [e])[j].key == k;
      if j < |chain| {
        assert chain[j].key == k;
      }
    }
    if InChain(chain, k) {
      var j :| 0 <= j < |chain| && chain[j].key == k;
      assert (chain + [e])[j].key == k;
    }
    if e.key == k {
      assert (chain + [e])[|chain|].key == k;
    }
  }

  lemma AppendPlaced<K, V>(chains: seq<seq<Entry<K, V>>>, hash: K -> int, e: Entry<K, V>)
    requires WellPlaced(chains, hash) && e.hash == hash(e.key)
    ensures WellPlaced(Append(chains, e), hash)
  {
    var s := Slot(e.hash, |chains|);
    var next: seq<seq<Entry<K, V>>> := Append(chains, e);
    forall i, j | 0 <= i < |next| && 0 <= j < |next[i]|
      ensures next[i][j].hash == hash(next[i][j].key) && Slot(next[i][j].hash, |next|) == i
    {
      if i != s || j < |chains[s]| {
        assert next[i][j] == chains[i][j];
      }
    }
  }

  lemma AppendDistinct<K, V>(chains: seq<seq<Entry<K, V>>>, e: Entry<K, V>)
    requires |chains| > 0 && ChainsDistinct(chains)
    requires !InChain(chains[Slot(e.hash, |chains|)], e.key)
    ensures ChainsDistinct(Append(chains, e))
  {
    var s := Slot(e.hash, |chains|);
    var next: seq<seq<Entry<K, V>>> := Append(chains, e);
    forall i, j1, j2 | 0 <= i < |next| && 0 <= j1 < j2 < |next[i]|
      ensures next[i][j1].key != next[i][j2].key
    {
      assert next[i][j1] == chains[i][j1];
      if i != s || j2 < |chains[s]| {
        assert next[i][j2] == chains[i][j2];
      }
    }
  }

  // ---------------------------------------------------------------------
  // Properties of insertion and rehash

  /** Looking a key up in its chain tells whether the represented map has it. */
  lemma RepresentsLookup<K, V>(chains: seq<seq<Entry<K, V>>>, hash: K -> int, m: map<K, V>, k: K)
    requires Represents(chains, hash, m)
    ensures InChain(chains[Slot(hash(k), |chains|)], k) <==> k in m
  {
    var s := Slot(hash(k), |chains|);
    if InChain(chains[s], k) {
      var j :| 0 <= j < |chains[s]| && chains[s][j].key == k;
    }
  }

  /** Linking a missing key into its chain stores the updated map and adds one entry. */
  lemma InsertPreserves<K, V>(chains: seq<seq<Entry<K, V>>>, hash: K -> int, m: map<K, V>, k: K, v: V)
    requires Represents(chains, hash, m) && k !in m
    ensures Represents(Append(chains, Entry(k, v, hash(k))), hash, m[k := v])
    ensures |Concat(Append(chains, Entry(k, v, hash(k))))| == |Concat(chains)| + 1
  {
    var e := Entry(k, v, hash(k));
    var s := Slot(hash(k), |chains|);
    var next: seq<seq<Entry<K, V>>> := Append(chains, e);
    var m': map<K, V> := m[k := v];
    RepresentsLookup(chains, hash, m, k);
    AppendPlaced(chains, hash, e);
    AppendDistinct(chains, e);
    ConcatUpdateLength(chains, s, chains[s] + [e]);
    forall i, j | 0 <= i < |next| && 0 <= j < |next[i]|
      ensures next[i][j].key in m' && m'[next[i][j].key] == next[i][j].value
    {
      if i != s || j < |chains[s]| {
        assert next[i][j] == chains[i][j];
      }
    }
    forall key | key in m'
      ensures InChain(next[Slot(hash(key), |next|)], key)
    {
      InChainSnoc(chains[s], e, key);
    }
  }

  /** The map grows by one entry when a missing key is added. */
  lemma AddFreshKeyCount<K, V>(m: map<K, V>, k: K, v: V)
    requires k !in m
    ensures |m[k := v]| == |m| + 1
  {
    assert m[k := v].Keys == m.Keys + {k};
  }

  lemma ReinsertSnoc<K, V>(chains: seq<seq<Entry<K, V>>>, newKey: K, es: seq<Entry<K, V>>, e: Entry<K, V>)
    requires |chains| > 0
    ensures Reinsert(chains, newKey, es + [e]) == AddEntry(Reinsert(chains, newKey, es), newKey, e)
  {
    assert (es + [e])[..|es|] == es;
  }

  /**
    The chains r hold exactly the entries es, moved: each entry where its
    stored hash selects, no chain repeating a key, nothing added, nothing
    dropped.
  */
  ghost predicate Moved<K, V>(r: seq<seq<Entry<K, V>>>, hash: K -> int, es: seq<Entry<K, V>>) {
    && WellPlaced(r, hash)
    && ChainsDistinct(r)
    && (forall i, j :: 0 <= i < |r| && 0 <= j < |r[i]| ==> r[i][j] in es)
    && (forall t :: 0 <= t < |es| ==> es[t] in r[Slot(es[t].hash, |r|)])
    && |Concat(r)| == |es|
  }

  /** Linking one more entry, with a key none of es has, keeps the chains a move of es plus that entry. */
  lemma MovedAppend<K, V>(r0: seq<seq<Entry<K, V>>>, hash: K -> int, init: seq<Entry<K, V>>, e: Entry<K, V>)
    requires Moved(r0, hash, init) && e.hash == hash(e.key)
    requires forall t :: 0 <= t < |init| ==> init[t].key != e.key
    ensures Moved(Append(r0, e), hash, init + [e])
  {
    var es := init + [e];
    var r: seq<seq<Entry<K, V>>> := Append(r0, e);
    var s := Slot(e.hash, |r0|);
    forall j | 0 <= j < |r0[s]|
      ensures r0[s][j].key != e.key
    {
      assert r0[s][j] in init;
    }
    AppendPlaced(r0, hash, e);
    AppendDistinct(r0, e);
    ConcatUpdateLength(r0, s, r0[s] + [e]);
    forall i, j | 0 <= i < |r| && 0 <= j < |r[i]|
      ensures r[i][j] in es
    {
      if i != s || j < |r0[s]| {
        assert r[i][j] == r0[i][j];
      }
    }
    forall t | 0 <= t < |es|
      ensures es[t] in r[Slot(es[t].hash, |r|)]
    {
      if t < |init| {
        assert init[t] == es[t];
      }
    }
  }

  /**
    When the key being added is not among the entries moved, the rehash
    drops nothing: every moved entry lands in the chain its stored hash
    selects, no chain repeats a key, and the entry count is unchanged.
  */
  lemma {:induction false} ReinsertKeepsAll<K, V>(n: nat, hash: K -> int, newKey: K, es: seq<Entry<K, V>>)
    requires n > 0
    requires DistinctEntryKeys(es)
    requires forall t :: 0 <= t < |es| ==> es[t].hash == hash(es[t].key) && es[t].key != newKey
    ensures Moved(Reinsert(EmptyChains(n), newKey, es), hash, es)
  {
    if es == [] {
      ConcatAllEmpty(EmptyChains<K, V>(n));
    } else {
      var init, e := es[..|es| - 1], es[|es| - 1];
      assert es == init + [e];
      ReinsertKeepsAll(n, hash, newKey, init);
      var r0: seq<seq<Entry<K, V>>> := Reinsert(EmptyChains(n), newKey, init);
      var s := Slot(e.hash, n);
      assert !InChain(r0[s], newKey) by {
        forall j | 0 <= j < |r0[s]|
          ensures r0[s][j].key != newKey
        {
          assert r0[s][j] in init;
        }
      }
      forall t | 0 <= t < |init|
        ensures init[t].key != e.key
      {
        assert es[t] == init[t];
      }
      MovedAppend(r0, hash, init, e);
    }
  }

  /** A rehash never loses the chain entry that holds the key being added. */
  lemma {:induction false} ReinsertKeepsNewKey<K, V>(n: nat, hash: K -> int, newKey: K, es: seq<Entry<K, V>>)
    requires n > 0
    requires exists t :: 0 <= t < |es| && es[t].key == newKey && es[t].hash == hash(newKey)
    ensures InChain(Reinsert(EmptyChains(n), newKey, es)[Slot(hash(newKey), n)], newKey)
  {
    var init, e := es[..|es| - 1], es[|es| - 1];
    var r0: seq<seq<Entry<K, V>>> := Reinsert(EmptyChains(n), newKey, init);
    var s := Slot(hash(newKey), n);
    if e.key == newKey && e.hash == hash(newKey) {
      if !InChain(r0[s], newKey) {
        InChainSnoc(r0[s], e, newKey);
      }
    } else {
      var t :| 0 <= t < |es| && es[t].key == newKey && es[t].hash == hash(newKey);
      assert init[t] == es[t];
      ReinsertKeepsNewKey(n, hash, newKey, init);
      InChainSnoc(r0[Slot(e.hash, n)], e, newKey);
    }
  }

  /**
    Chains holding every entry of a represented map, each where its hash
    selects and no chain repeating a key, represent that map too.
  */
  lemma MovedRepresents<K, V>(chains: seq<seq<Entry<K, V>>>, hash: K -> int, m: map<K, V>, next: seq<seq<Entry<K, V>>>)
    requires Represents(chains, hash, m)
    requires Moved(next, hash, Concat(chains))
    ensures Represents(next, hash, m)
  {
    var es := Concat(chains);
    forall i, j | 0 <= i < |next| && 0 <= j < |next[i]|
      ensures next[i][j].key in m && m[next[i][j].key] == next[i][j].value
    {
      ConcatMembers(chains, next[i][j]);
    }
    forall k | k in m
      ensures InChain(next[Slot(hash(k), |next|)], k)
    {
      var t := Slot(hash(k), |chains|);
      var j :| 0 <= j < |chains[t]| && chains[t][j].key == k;
      ConcatMembers(chains, chains[t][j]);
      var a :| 0 <= a < |es| && es[a] == chains[t][j];
      var u := Slot(es[a].hash, |next|);
      var b :| 0 <= b < |next[u]| && next[u][b] == es[a];
    }
  }

  /**
    The rehash of TryAddInternal: when the key being added is new, the
    grown chains represent the same map with the same entry count; when it
    is already present, its entry is in the chain it selects, so the add
    that follows reports the duplicate.
  */
  lemma RehashFacts<K, V>(chains: seq<seq<Entry<K, V>>>, hash: K -> int, m: map<K, V>, key: K, n: nat)
    requires Represents(chains, hash, m) && |Concat(chains)| == |m|
    requires IsPow2(n) && n >= CapacityFor(|m| + 1)
    ensures ReadyToAdd(Reinsert(EmptyChains(n), key, Concat(chains)), hash, m, key)
  {
    var es := Concat(chains);
    if key in m {
      var t := Slot(hash(key), |chains|);
      var j :| 0 <= j < |chains[t]| && chains[t][j].key == key;
      ConcatMembers(chains, chains[t][j]);
      ReinsertKeepsNewKey(n, hash, key, es);
    } else {
      ConcatKeysDistinct(chains, hash, |chains|);
      assert chains[..|chains|] == chains;
      forall t | 0 <= t < |es|
        ensures es[t].hash == hash(es[t].key) && es[t].key != key
      {
        ConcatMembers(chains, es[t]);
      }
      ReinsertKeepsAll(n, hash, key, es);
      MovedRepresents(chains, hash, m, Reinsert(EmptyChains(n), key, es));
    }
  }

  /**
    The state a dictionary of count size keeps: a power-of-two bucket
    length no smaller than the capacity for size, chains that store exactly
    m, and size both the number of keys and the number of entries.
  */
  ghost predicate Stores<K, V>(chains: seq<seq<Entry<K, V>>>, hash: K -> int, m: map<K, V>, size: nat) {
    && IsPow2(|chains|)
    && |chains| >= CapacityFor(size)
    && Represents(chains, hash, m)
    && size == |m|
    && size == |Concat(chains)|
  }

  /**
    The state just before addToBuckets in TryAddInternal: the buckets have
    room for one more key; a new key finds the chains storing m, a present
    key finds its entry in the chain it selects.
  */
  ghost predicate ReadyToAdd<K, V>(chains: seq<seq<Entry<K, V>>>, hash: K -> int, m: map<K, V>, key: K) {
    && IsPow2(|chains|)
    && |chains| >= CapacityFor(|m| + 1)
    && (key !in m ==> Represents(chains, hash, m) && |Concat(chains)| == |m|)
    && (key in m ==> InChain(chains[Slot(hash(key), |chains|)], key))
  }

  /** Without a rehash, a dictionary with room for one more key is ready to add any key. */
  lemma StoresReady<K, V>(chains: seq<seq<Entry<K, V>>>, hash: K -> int, m: map<K, V>, key: K)
    requires Stores(chains, hash, m, |m|) && |chains| >= CapacityFor(|m| + 1)
    ensures ReadyToAdd(chains, hash, m, key)
  {
    RepresentsLookup(chains, hash, m, key);
  }

  /**
    The add that ends TryAddInternal: it succeeds exactly when the key is
    missing, and then the chains store the map with the new pair.
  */
  lemma AddFacts<K, V>(before: seq<seq<Entry<K, V>>>, after: seq<seq<Entry<K, V>>>, hash: K -> int, m: map<K, V>, key: K, value: V)
    requires ReadyToAdd(before, hash, m, key)
    requires after == AddEntry(before, key, Entry(key, value, hash(key)))
    ensures InChain(before[Slot(hash(key), |before|)], key) <==> key in m
    ensures key !in m ==> Stores(after, hash, m[key := value], |m| + 1)
  {
    if key !in m {
      RepresentsLookup(before, hash, m, key);
      InsertPreserves(before, hash, m, key, value);
      AddFreshKeyCount(m, key, value);
    }
  }

  // ---------------------------------------------------------------------
  // addToBuckets and the rehash loop

  /**
    addToBuckets: walk the chain the incoming entry's hash selects; report a
    chain entry with newKey as a failure, otherwise link the entry at the end.
  */
  method AddToBuckets<K(==), V>(buckets: array<seq<Entry<K, V>>>, hash: K -> int, newKey: K, incoming: Incoming<K, V>)
    returns (success: bool)
    requires buckets.Length > 0
    modifies buckets
    ensures var e := IncomingEntry(hash, newKey, incoming);
      && success == !InChain(old(buckets[Slot(e.hash, buckets.Length)]), newKey)
      && buckets[..] == AddEntry(old(buckets[..]), newKey, e)
  {
    var e := IncomingEntry(hash, newKey, incoming);
    var index := Slot(e.hash, buckets.Length);
    var chain := buckets[index];
    var j := 0;
    while j < |chain|
      invariant 0 <= j <= |chain|
      invariant forall t :: 0 <= t < j ==> chain[t].key != newKey
    {
      if chain[j].key == newKey {
        return false;
      }
      j := j + 1;
    }
    buckets[index] := chain + [e];
    return true;
  }

  /** The rehash loop of TryAddInternal: moves every entry, bucket by bucket, into a fresh array. */
  method Rehash<K(==), V>(buckets: array<seq<Entry<K, V>>>, hash: K -> int, key: K, nextCapacity: nat)
    returns (next: array<seq<Entry<K, V>>>)
    requires nextCapacity > 0
    ensures fresh(next)
    ensures next[..] == Reinsert(EmptyChains(nextCapacity), key, Concat(buckets[..]))
  {
    next := new seq<Entry<K, V>>[nextCapacity](i => []);
    ghost var empty := EmptyChains(nextCapacity);
    ghost var done: seq<Entry<K, V>> := [];
    assert next[..] == empty;
    assert buckets[..0] == [];
    var i := 0;
    while i < buckets.Length
      invariant 0 <= i <= buckets.Length
      invariant fresh(next) && next.Length == nextCapacity
      invariant done == Concat(buckets[..i])
      invariant next[..] == Reinsert(empty, key, done)
    {
      MoveChain(next, hash, key, buckets[i], empty, done);
      assert buckets[..i + 1] == buckets[..i] + [buckets[i]];
      ConcatSnoc(buckets[..i], buckets[i]);
      done := done + buckets[i];
      i := i + 1;
    }
    assert buckets[..buckets.Length] == buckets[..];
  }

  /** The inner loop of the rehash: walks one old chain from its head, moving each entry. */
  method MoveChain<K(==), V>(next: array<seq<Entry<K, V>>>, hash: K -> int, key: K, chain: seq<Entry<K, V>>,
                             ghost empty: seq<seq<Entry<K, V>>>, ghost done: seq<Entry<K, V>>)
    requires |empty| > 0 && next[..] == Reinsert(empty, key, done)
    modifies next
    ensures next[..] == Reinsert(empty, key, done + chain)
  {
    var j := 0;
    assert done + chain[..0] == done;
    while j < |chain|
      invariant 0 <= j <= |chain|
      invariant next[..] == Reinsert(empty, key, done + chain[..j])
    {
      var e := chain[j];
      var newEntry := Entry(e.key, e.value, e.hash);
      var _ := AddToBuckets(next, hash, key, Existing(newEntry));
      ReinsertSnoc(empty, key, done + chain[..j], e);
      assert (done + chain[..j]) + [e] == done + chain[..j + 1];
      j := j + 1;
    }
    assert chain[..j] == chain;
  }

  // ---------------------------------------------------------------------
  // Pairs

  ghost function EntryPairs<K, V>(es: seq<Entry<K, V>>): (ps: seq<(K, V)>)
    ensures |ps| == |es|
  {
    seq(|es|, t requires 0 <= t < |es| => (es[t].key, es[t].value))
  }

  predicate DistinctPairKeys<K(==), V>(ps: seq<(K, V)>) {
    forall a, b :: 0 <= a < b < |ps| ==> ps[a].0 != ps[b].0
  }

  /** The map a sequence of pairs builds, a later pair overriding an earlier one. */
  function PairsToMap<K(==), V>(ps: seq<(K, V)>): map<K, V> {
    if ps == [] then map[] else PairsToMap(ps[..|ps| - 1])[ps[|ps| - 1].0 := ps[|ps| - 1].1]
  }

  /** With distinct keys, the built map pairs each key with its value and has one key per pair. */
  lemma {:induction false} PairsToMapLookup<K, V>(ps: seq<(K, V)>)
    requires DistinctPairKeys(ps)
    ensures |PairsToMap(ps)| == |ps|
    ensures forall t :: 0 <= t < |ps| ==> ps[t].0 in PairsToMap(ps) && PairsToMap(ps)[ps[t].0] == ps[t].1
    ensures forall k :: k in PairsToMap(ps) ==> exists t :: 0 <= t < |ps| && ps[t].0 == k
  {
    if ps != [] {
      var init, last := ps[..|ps| - 1], ps[|ps| - 1];
      PairsToMapLookup(init);
      assert last.0 !in PairsToMap(init);
      AddFreshKeyCount(PairsToMap(init), last.0, last.1);
      forall t | 0 <= t < |ps|
        ensures ps[t].0 in PairsToMap(ps) && PairsToMap(ps)[ps[t].0] == ps[t].1
      {
        if t < |init| {
          assert init[t] == ps[t];
        }
      }
      forall k | k in PairsToMap(ps)
        ensures exists t :: 0 <= t < |ps| && ps[t].0 == k
      {
        if k != last.0 {
          var t :| 0 <= t < |init| && init[t].0 == k;
          assert ps[t] == init[t];
        }
      }
    }
  }

  /** A key repeated in the pairs is already in the map its predecessors build. */
  lemma {:induction false} PairsToMapHasEarlierKeys<K, V>(ps: seq<(K, V)>, t: int)
    requires 0 <= t < |ps|
    ensures ps[t].0 in PairsToMap(ps)
  {
    var init := ps[..|ps| - 1];
    if t < |ps| - 1 {
      assert init[t] == ps[t];
      PairsToMapHasEarlierKeys(init, t);
    }
  }

  /** One more pair: the map gains it, and the keys stay distinct exactly when it is new. */
  lemma PairsPrefixStep<K, V>(ps: seq<(K, V)>, i: int)
    requires 0 <= i < |ps| && DistinctPairKeys(ps[..i])
    ensures PairsToMap(ps[..i + 1]) == PairsToMap(ps[..i])[ps[i].0 := ps[i].1]
    ensures DistinctPairKeys(ps[..i + 1]) <==> ps[i].0 !in PairsToMap(ps[..i])
    ensures ps[i].0 in PairsToMap(ps[..i]) ==> !DistinctPairKeys(ps)
  {
    assert ps[..i + 1][..i] == ps[..i];
    if ps[i].0 in PairsToMap(ps[..i]) {
      PairsToMapLookup(ps[..i]);
      var t :| 0 <= t < i && ps[..i][t].0 == ps[i].0;
      assert ps[..i + 1][t].0 == ps[..i + 1][i].0;
    } else {
      forall t | 0 <= t < i
        ensures ps[t].0 != ps[i].0
      {
        PairsToMapHasEarlierKeys(ps[..i], t);
        assert ps[..i][t] == ps[t];
      }
    }
  }

  // ---------------------------------------------------------------------
  // The dictionary

  class FastReadOnlyDictionary<K(==), V> {
    /** EqualityComparer<TKey>.Default.GetHashCode. */
    const hash: K -> int
    var buckets: array<seq<Entry<K, V>>>
    var size: nat
    /** The key/value map the buckets store. */
    ghost var Contents: map<K, V>

    /**
      The bucket length is a power of two no smaller than CalculateCapacity
      of the count; the chains store exactly Contents; the count equals both
      the number of keys and the number of reachable entries.
    */
    ghost predicate Valid()
      reads this, buckets
    {
      Stores(buckets[..], hash, Contents, size)
    }

    /** The pairs AllKV yields: buckets in index order, each chain from its head. */
    ghost function Enumeration(): seq<(K, V)>
      reads this, buckets
    {
      EntryPairs(Concat(buckets[..]))
    }

    /** The empty dictionary the constructor starts from, sized for collectionSize entries. */
    constructor Init(hash: K -> int, collectionSize: nat)
      ensures Valid() && fresh(buckets)
      ensures this.hash == hash && Contents == map[] && size == 0
      ensures buckets.Length == CapacityFor(collectionSize)
    {
      var bucketSize := CalculateCapacity(collectionSize);
      this.hash := hash;
      buckets := new seq<Entry<K, V>>[bucketSize](i => []);
      size := 0;
      Contents := map[];
      new;
      ConcatAllEmpty(buckets[..]);
      CapacityMonotonic(0, collectionSize);
    }

    /**
      The rehash branch of TryAddInternal: every entry is moved into a fresh
      bucket array of nextCapacity, the chain test made against the key
      about to be added. When that key is new nothing is lost; when it is
      already present its entry is where a lookup of it starts.
    */
    method Grow(key: K, nextCapacity: nat)
      requires Valid() && buckets.Length < nextCapacity == CapacityFor(size + 1)
      modifies this
      ensures fresh(buckets) && buckets.Length == nextCapacity
      ensures Contents == old(Contents) && size == old(size)
      ensures ReadyToAdd(buckets[..], hash, Contents, key)
    {
      var nextBucket := Rehash(buckets, hash, key, nextCapacity);
      RehashFacts(buckets[..], hash, Contents, key, nextCapacity);
      buckets := nextBucket;
    }

    /**
      The adding half of TryAddInternal, once the buckets have room for one
      more entry: the key goes at the tail of its chain unless the chain
      already holds it.
    */
    method AddWithRoom(key: K, value: V) returns (success: bool)
      requires ReadyToAdd(buckets[..], hash, Contents, key) && size == |Contents|
      modifies this, buckets
      ensures buckets == old(buckets)
      ensures success <==> key !in old(Contents)
      ensures success ==> Contents == old(Contents)[key := value] && size == old(size) + 1 && Valid()
      ensures !success ==> Contents == old(Contents) && size == old(size)
    {
      ghost var m := Contents;
      ghost var before := buckets[..];
      success := AddToBuckets(buckets, hash, key, NewValue(value));
      ghost var after := buckets[..];
      AddFacts(before, after, hash, m, key, value);
      if success {
        Contents := m[key := value];
        size := size + 1;
        assert buckets[..] == after;
      }
    }

    /**
      TryAddInternal: grow and rehash when the bucket array is below the
      capacity needed for one more entry, then add the key unless present.
    */
    method TryAddInternal(key: K, value: V) returns (success: bool)
      requires Valid()
      modifies this, buckets
      ensures buckets == old(buckets) || fresh(buckets)
      ensures success <==> key !in old(Contents)
      ensures success ==> Contents == old(Contents)[key := value] && size == old(size) + 1
      ensures success ==> Valid()
      ensures !success ==> Contents == old(Contents) && size == old(size)
      ensures buckets.Length ==
        if old(buckets.Length) < CapacityFor(old(size) + 1) then CapacityFor(old(size) + 1) else old(buckets.Length)
    {
      var nextCapacity := CalculateCapacity(size + 1);
      if buckets.Length < nextCapacity {
        Grow(key, nextCapacity);
      } else {
        StoresReady(buckets[..], hash, Contents, key);
      }
      success := AddWithRoom(key, value);
    }

    /**
      The constructor: size the buckets from the source's count when it has
      one (otherwise for 4 entries), then add every pair in order, failing
      with ArgumentException on a repeated key.
    */
    static method New(hash: K -> int, source: Enumerable<(K, V)>)
      returns (r: Result<FastReadOnlyDictionary<K, V>, Exception>)
      ensures source.Null? ==> r == Failure(ArgumentNull)
      ensures !source.Null? ==> (r.Success? <==> DistinctPairKeys(source.items))
      ensures !source.Null? && r.Failure? ==> r.error == Argument
      ensures r.Success? ==> fresh(r.value) && fresh(r.value.buckets) && r.value.Valid()
      ensures r.Success? ==> r.value.hash == hash && r.value.Contents == PairsToMap(source.items)
      ensures r.Success? ==> r.value.size == |source.items|
    {
      var count := TryGetNonEnumeratedCount(source);
      if count.Failure? {
        return Failure(count.error);
      }
      var size := if count.value.0 then count.value.1 else InitialSize;
      var d := new FastReadOnlyDictionary.Init(hash, size);
      var items := source.items;
      var i := 0;
      assert items[..0] == [];
      while i < |items|
        invariant 0 <= i <= |items|
        invariant fresh(d) && fresh(d.buckets) && d.Valid() && d.hash == hash
        invariant DistinctPairKeys(items[..i])
        invariant d.Contents == PairsToMap(items[..i]) && d.size == i
      {
        var ok := d.TryAddInternal(items[i].0, items[i].1);
        PairsPrefixStep(items, i);
        if !ok {
          return Failure(Argument);
        }
        i := i + 1;
      }
      assert items[..i] == items;
      return Success(d);
    }

    // -------------------------------------------------------------------
    // IReadOnlyDictionary

    /** TryGetValue: walk the chain at the key's slot; Some(value) when found, None when not. */
    method TryGetValue(key: K) returns (r: Option<V>)
      requires Valid()
      ensures r.Some? <==> key in Contents
      ensures r.Some? ==> r.value == Contents[key]
    {
      var index := Slot(hash(key), buckets.Length);
      var chain := buckets[index];
      var j := 0;
      while j < |chain|
        invariant 0 <= j <= |chain|
        invariant forall t :: 0 <= t < j ==> chain[t].key != key
      {
        if chain[j].key == key {
          return Some(chain[j].value);
        }
        j := j + 1;
      }
      RepresentsLookup(buckets[..], hash, Contents, key);
      return None;
    }

    /** ContainsKey: TryGetValue's boolean. */
    method ContainsKey(key: K) returns (found: bool)
      requires Valid()
      ensures found <==> key in Contents
    {
      var r := TryGetValue(key);
      found := r.Some?;
    }

    /** The indexer: the stored value, or KeyNotFoundException. */
    method Get(key: K) returns (r: Result<V, Exception>)
      requires Valid()
      ensures r.Failure? <==> key !in Contents
      ensures r.Failure? ==> r.error == KeyNotFound
      ensures r.Success? ==> r.value == Contents[key]
    {
      var found := TryGetValue(key);
      if found.Some? {
        return Success(found.value);
      }
      return Failure(KeyNotFound);
    }

    /** Count: the number of stored keys. */
    method Count() returns (n: nat)
      requires Valid()
      ensures n == |Contents|
    {
      n := size;
    }

    /** AllKV: every bucket in index order, each chain from its head. */
    method AllKV() returns (kvs: seq<(K, V)>)
      requires Valid()
      ensures kvs == Enumeration()
      ensures |kvs| == |Contents| && DistinctPairKeys(kvs)
      ensures forall t :: 0 <= t < |kvs| ==> kvs[t].0 in Contents && Contents[kvs[t].0] == kvs[t].1
      ensures forall k :: k in Contents ==> exists t :: 0 <= t < |kvs| && kvs[t].0 == k
    {
      kvs := [];
      var i := 0;
      assert buckets[..0] == [];
      while i < buckets.Length
        invariant 0 <= i <= buckets.Length
        invariant kvs == EntryPairs(Concat(buckets[..i]))
      {
        var next := buckets[i];
        var j := 0;
        while j < |next|
          invariant 0 <= j <= |next|
          invariant kvs == EntryPairs(Concat(buckets[..i]) + next[..j])
        {
          assert next[..j + 1] == next[..j] + [next[j]];
          kvs := kvs + [(next[j].key, next[j].value)];
          j := j + 1;
        }
        assert buckets[..i + 1] == buckets[..i] + [next];
        ConcatSnoc(buckets[..i], next);
        assert next[..j] == next;
        i := i + 1;
      }
      assert buckets[..i] == buckets[..];
      EnumerationSpec();
    }

    /**
      The enumeration yields each stored pair exactly once: as many pairs as
      keys, no key twice, every pair stored, every key yielded.
    */
    lemma EnumerationSpec()
      requires Valid()
      ensures var kvs := Enumeration();
        && |kvs| == |Contents| && DistinctPairKeys(kvs)
        && (forall t :: 0 <= t < |kvs| ==> kvs[t].0 in Contents && Contents[kvs[t].0] == kvs[t].1)
        && (forall k :: k in Contents ==> exists t :: 0 <= t < |kvs| && kvs[t].0 == k)
    {
      var es := Concat(buckets[..]);
      var kvs := Enumeration();
      ConcatKeysDistinct(buckets[..], hash, buckets.Length);
      assert buckets[..][..buckets.Length] == buckets[..];
      forall t | 0 <= t < |kvs|
        ensures kvs[t].0 in Contents && Contents[kvs[t].0] == kvs[t].1
      {
        ConcatMembers(buckets[..], es[t]);
      }
      forall k | k in Contents
        ensures exists t :: 0 <= t < |kvs| && kvs[t].0 == k
      {
        var s := Slot(hash(k), buckets.Length);
        var j :| 0 <= j < |buckets[s]| && buckets[s][j].key == k;
        ConcatMembers(buckets[..], buckets[s][j]);
        var t :| 0 <= t < |es| && es[t] == buckets[s][j];
        assert kvs[t].0 == k;
      }
    }

    /** Keys: the keys of AllKV, in its order. */
    method Keys() returns (ks: seq<K>)
      requires Valid()
      ensures |ks| == |Contents|
      ensures forall t :: 0 <= t < |ks| ==> ks[t] == Enumeration()[t].0
      ensures forall k :: k in Contents <==> k in ks
      ensures forall a, b :: 0 <= a < b < |ks| ==> ks[a] != ks[b]
    {
      var kvs := AllKV();
      ks := seq(|kvs|, t requires 0 <= t < |kvs| => kvs[t].0);
      forall k | k in ks
        ensures k in Contents
      {
        var t :| 0 <= t < |ks| && ks[t] == k;
      }
    }

    /** Values: the values of AllKV, in its order. */
    method Values() returns (vs: seq<V>)
      requires Valid()
      ensures |vs| == |Contents|
      ensures forall t :: 0 <= t < |vs| ==> vs[t] == Enumeration()[t].1
      ensures forall t :: 0 <= t < |vs| ==>
        Enumeration()[t].0 in Contents && vs[t] == Contents[Enumeration()[t].0]
      ensures forall k :: k in Contents ==>
        exists t :: 0 <= t < |vs| && Enumeration()[t].0 == k && vs[t] == Contents[k]
    {
      var kvs := AllKV();
      vs := seq(|kvs|, t requires 0 <= t < |kvs| => kvs[t].1);
    }

    /** The load factor: at most three entries per four buckets, up to rounding. */
    lemma LoadFactor()
      requires Valid()
      ensures 4 * size <= 3 * buckets.Length + 2
      ensures buckets.Length >= 8
    {
    }
  }
}
