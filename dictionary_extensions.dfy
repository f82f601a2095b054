/**
  ToFastReadOnlyDictionary: the LINQ-style builder that projects every
  element of a sequence to a key/value pair and hands the pairs, in source
  order, to the FastReadOnlyDictionary constructor.
*/
module DictionaryExtensions {
  import opened Wrappers
  import opened EnumerableExtensions
  import opened FastDictionary

  /** source.Select(i => new KeyValuePair(keySelector(i), valueSelector(i))), element by element. */
  function Selected<S, K, V>(items: seq<S>, keySelector: S -> K, valueSelector: S -> V): (ps: seq<(K, V)>)
    ensures |ps| == |items|
    ensures forall t :: 0 <= t < |items| ==> ps[t] == (keySelector(items[t]), valueSelector(items[t]))
  {
    seq(|items|, t requires 0 <= t < |items| => (keySelector(items[t]), valueSelector(items[t])))
  }

  /**
    The pairs have distinct keys exactly when the key selector maps the
    elements to distinct keys, and then the map built from them sends each
    element's key to that element's value.
  */
  lemma SelectedLookup<S, K, V>(items: seq<S>, keySelector: S -> K, valueSelector: S -> V)
    ensures DistinctPairKeys(Selected(items, keySelector, valueSelector)) <==>
      forall a, b :: 0 <= a < b < |items| ==> keySelector(items[a]) != keySelector(items[b])
    ensures DistinctPairKeys(Selected(items, keySelector, valueSelector)) ==>
      var m := PairsToMap(Selected(items, keySelector, valueSelector));
      && |m| == |items|
      && (forall t :: 0 <= t < |items| ==> keySelector(items[t]) in m && m[keySelector(items[t])] == valueSelector(items[t]))
      && (forall k :: k in m ==> exists t :: 0 <= t < |items| && keySelector(items[t]) == k)
  {
    var ps := Selected(items, keySelector, valueSelector);
    if DistinctPairKeys(ps) {
      PairsToMapLookup(ps);
    }
  }

  /**
    ToFastReadOnlyDictionary: a null source fails in Select with
    ArgumentNullException; otherwise the result is the dictionary of the
    projected pairs, or the constructor's ArgumentException when two
    elements project to the same key. The projection is lazy, so the
    dictionary is pre-sized for the default four entries.
  */
  method ToFastReadOnlyDictionary<S, K(==), V>(source: Enumerable<S>, keySelector: S -> K, valueSelector: S -> V, hash: K -> int)
    returns (r: Result<FastReadOnlyDictionary<K, V>, Exception>)
    ensures source.Null? ==> r == Failure(ArgumentNull)
    ensures !source.Null? ==>
      (r.Success? <==> forall a, b :: 0 <= a < b < |source.items| ==>
         keySelector(source.items[a]) != keySelector(source.items[b]))
    ensures !source.Null? && r.Failure? ==> r.error == Argument
    ensures r.Success? ==> fresh(r.value) && r.value.Valid() && r.value.hash == hash
    ensures r.Success? ==> r.value.Contents == PairsToMap(Selected(source.items, keySelector, valueSelector))
    ensures r.Success? ==> r.value.size == |source.items|
  {
    if source.Null? {
      return Failure(ArgumentNull);
    }
    var pairs := Selected(source.items, keySelector, valueSelector);
    SelectedLookup(source.items, keySelector, valueSelector);
    r := FastReadOnlyDictionary.New(hash, Lazy(pairs));
  }

  /** The pairs DistinctBy(key) projects never repeat a key, so building their dictionary cannot fail. */
  lemma DistinctByPairKeys<T, K, V>(s: seq<T>, key: T -> K, f: T -> V)
    ensures DistinctPairKeys(Selected(DistinctBy(s, key), key, f))
  {
    DistinctByKeys(s, key);
  }

  /** The dictionary of DistinctBy(key) has exactly the keys of the source. */
  lemma DistinctByMapKeys<T, K, V>(s: seq<T>, key: T -> K, f: T -> V, k: K)
    ensures k in PairsToMap(Selected(DistinctBy(s, key), key, f)) <==> exists i :: 0 <= i < |s| && key(s[i]) == k
  {
    var out := DistinctBy(s, key);
    var ps := Selected(out, key, f);
    DistinctByPairKeys(s, key, f);
    DistinctByKeys(s, key);
    PairsToMapLookup(ps);
    KeySetMember(out, key, k);
    KeySetMember(s, key, k);
    if k in PairsToMap(ps) {
      var t :| 0 <= t < |ps| && ps[t].0 == k;
      assert key(out[t]) == k;
    }
    if k in KeySet(out, key) {
      var a :| 0 <= a < |out| && key(out[a]) == k;
      assert ps[a].0 == k;
    }
  }

  /** In the dictionary of DistinctBy(key), a key maps to f of the first element carrying it. */
  lemma DistinctByMapFirst<T, K, V>(s: seq<T>, key: T -> K, f: T -> V, i: int)
    requires 0 <= i < |s| && IsFirst(s, key, i)
    ensures key(s[i]) in PairsToMap(Selected(DistinctBy(s, key), key, f))
    ensures PairsToMap(Selected(DistinctBy(s, key), key, f))[key(s[i])] == f(s[i])
  {
    var out, idx := DistinctBy(s, key), KeptIndices(s, key);
    var ps := Selected(out, key, f);
    DistinctByKeepsFirstOccurrences(s, key);
    DistinctByPairKeys(s, key, f);
    PairsToMapLookup(ps);
    var a :| 0 <= a < |idx| && idx[a] == i;
    assert ps[a] == (key(s[i]), f(s[i]));
  }
}
