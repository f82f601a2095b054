/**
  The sequence helpers of EnumerableExtensions: paging a list, chunking an
  arbitrary sequence, first-occurrence de-duplication by key, the
  non-enumerating count used to pre-size the dictionary, and the emptiness
  predicates. An IEnumerable argument is modelled by its run-time shape and
  the finite sequence of elements it enumerates.
*/
module EnumerableExtensions {
  import opened Wrappers

  /** The run-time shape of an IEnumerable<T> argument. */
  datatype Enumerable<T> =
    | Null
    | ListOf(items: seq<T>)        // a List<T>
    | ArrayOf(items: seq<T>)       // a T[]
    | CollectionOf(items: seq<T>)  // any other ICollection<T>
    | Lazy(items: seq<T>)          // anything else: an iterator, the result of Select

  predicate IsCollection<T>(source: Enumerable<T>) {
    source.ListOf? || source.ArrayOf? || source.CollectionOf?
  }

  /**
    TryGetNonEnumeratedCount: throws on null; (true, count) for collections;
    (false, 0) for everything else.
  */
  function TryGetNonEnumeratedCount<T>(source: Enumerable<T>): (r: Result<(bool, int), Exception>)
    ensures source.Null? <==> r.Failure?
    ensures r.Failure? ==> r.error == ArgumentNull
    ensures r.Success? ==> (r.value.0 <==> IsCollection(source))
    ensures r.Success? ==> r.value.1 == if r.value.0 then |source.items| else 0
  {
    match source
    case Null => Failure(ArgumentNull)
    case Lazy(_) => Success((false, 0))
    case _ => Success((true, |source.items|))
  }

  /** IsNullOrEmpty (the List, array and IEnumerable overloads agree on every shape). */
  predicate IsNullOrEmpty<T>(source: Enumerable<T>) {
    source.Null? || |source.items| == 0
  }

  /** IsNotNullOrEmpty (the List, array and IEnumerable overloads). */
  predicate IsNotNullOrEmpty<T>(source: Enumerable<T>) {
    !source.Null? && |source.items| > 0
  }

  /**
    The two predicates are complements, and "not empty" means the first
    MoveNext finds an element; for a collection it is the Count test.
  */
  lemma NullOrEmptyComplement<T>(source: Enumerable<T>)
    ensures IsNullOrEmpty(source) <==> !IsNotNullOrEmpty(source)
    ensures IsNotNullOrEmpty(source) <==> !source.Null? && exists x :: x in source.items
    ensures IsCollection(source) ==>
      (IsNullOrEmpty(source) <==> TryGetNonEnumeratedCount(source) == Success((true, 0)))
  {
    if IsNotNullOrEmpty(source) {
      assert source.items[0] in source.items;
    }
  }

  /** AsList: null stays null, a List is returned as is, anything else is copied into a new List. */
  function AsList<T>(source: Enumerable<T>): (r: Enumerable<T>)
    ensures source.Null? <==> r.Null?
    ensures !r.Null? ==> r.ListOf? && r.items == source.items
    ensures source.ListOf? ==> r == source
  {
    match source
    case Null => Null
    case ListOf(_) => source
    case _ => ListOf(source.items)
  }

  // ---------------------------------------------------------------------
  // Concatenation of pages / chunks

  function Concat<T>(ss: seq<seq<T>>): seq<T> {
    if ss == [] then [] else Concat(ss[..|ss| - 1]) + ss[|ss| - 1]
  }

  lemma ConcatSnoc<T>(ss: seq<seq<T>>, s: seq<T>)
    ensures Concat(ss + [s]) == Concat(ss) + s
  {
    assert (ss + [s])[..|ss|] == ss;
  }

  lemma {:induction false} ConcatCons<T>(s: seq<T>, ss: seq<seq<T>>)
    ensures Concat([s] + ss) == s + Concat(ss)
    decreases |ss|
  {
    if ss == [] {
      assert [s] + ss == [] + [s];
      ConcatSnoc([], s);
    } else {
      var init, last := ss[..|ss| - 1], ss[|ss| - 1];
      assert ss == init + [last];
      assert [s] + ss == ([s] + init) + [last];
      ConcatSnoc([s] + init, last);
      ConcatCons(s, init);
      ConcatSnoc(init, last);
    }
  }

  // ---------------------------------------------------------------------
  // Chunk(List<T>, pageSize)

  function Min(a: int, b: int): int { if a <= b then a else b }

  /** source.Skip(skip).Take(take) on a finite sequence. */
  function SkipTake<T>(s: seq<T>, skip: int, take: int): (r: seq<T>)
    ensures skip >= 0 && take >= 0 ==> r == s[Min(skip, |s|)..Min(Min(skip, |s|) + take, |s|)]
    ensures take <= 0 ==> r == []
  {
    var from := if skip <= 0 then 0 else Min(skip, |s|);
    var to := if take <= 0 then from else Min(from + take, |s|);
    s[from..to]
  }

  /** (int)Math.Ceiling(n * 1.0 / d) for a non-zero divisor. */
  function CeilDiv(n: nat, d: int): int
    requires d != 0
  {
    if d > 0 then (n + d - 1) / d else -(n / -d)
  }

  lemma CeilDivBounds(n: nat, d: int)
    requires d > 0
    ensures d * CeilDiv(n, d) >= n
    ensures d * (CeilDiv(n, d) - 1) < n
    ensures n > d ==> CeilDiv(n, d) >= 2
  {
    var q, r := (n + d - 1) / d, (n + d - 1) % d;
    assert n + d - 1 == d * q + r && 0 <= r < d;
    assert d * (q - 1) == d * q - d;
  }

  /**
    Chunk on a List<T>: the list itself when it fits in one page, otherwise
    pages 0 .. ceil(Count / pageSize) inclusive, page i being
    Skip(pageSize * i).Take(pageSize). A zero page size over a non-empty list
    casts +infinity to int, which C# leaves unspecified; that case is excluded.
  */
  function ChunkList<T>(source: seq<T>, pageSize: int): (pages: seq<seq<T>>)
    requires pageSize != 0 || |source| == 0
    ensures forall i :: 0 <= i < |pages| ==> pages[i] == source || pages[i] == [] || |pages[i]| <= pageSize
  {
    if |source| <= pageSize then [source]
    else
      var totalCount := CeilDiv(|source|, pageSize);
      seq(if totalCount >= 0 then totalCount + 1 else 0,
          i requires 0 <= i => SkipTake(source, pageSize * i, pageSize))
  }

  lemma ChunkListSmall<T>(source: seq<T>, pageSize: int)
    requires pageSize != 0 || |source| == 0
    requires |source| <= pageSize
    ensures ChunkList(source, pageSize) == [source]
  {
  }

  lemma ChunkListNegative<T>(source: seq<T>, pageSize: int)
    requires pageSize < 0
    ensures |ChunkList(source, pageSize)| <= 1
    ensures forall i :: 0 <= i < |ChunkList(source, pageSize)| ==> ChunkList(source, pageSize)[i] == []
    ensures |ChunkList(source, pageSize)| == 1 <==> |source| < -pageSize
  {
    var d := -pageSize;
    if |source| < d {
      assert |source| / d == 0;
    } else {
      assert |source| / d >= 1;
    }
  }

  /** Where page i of a pageSize-wide split of s starts: pageSize * i, clamped to the end. */
  function Cut<T>(s: seq<T>, pageSize: int, i: int): (r: nat)
    requires pageSize > 0 && i >= 0
    ensures r <= |s|
  {
    Min(pageSize * i, |s|)
  }

  /** Page i of a pageSize-wide split of s: Skip(pageSize * i).Take(pageSize). */
  function Window<T>(s: seq<T>, pageSize: int, i: int): seq<T>
    requires pageSize > 0 && i >= 0
  {
    s[Cut(s, pageSize, i)..Min(Cut(s, pageSize, i) + pageSize, |s|)]
  }

  /** Each window ends where the next one starts. */
  lemma CutStep<T>(s: seq<T>, pageSize: int, i: int)
    requires pageSize > 0 && i >= 0
    ensures Cut(s, pageSize, i + 1) == Min(Cut(s, pageSize, i) + pageSize, |s|)
  {
    assert pageSize * (i + 1) == pageSize * i + pageSize;
  }

  lemma ChunkListPage<T>(source: seq<T>, pageSize: int, i: int)
    requires pageSize > 0 && |source| > pageSize
    requires 0 <= i < |ChunkList(source, pageSize)|
    ensures ChunkList(source, pageSize)[i] == Window(source, pageSize, i)
  {
    var a := pageSize * i;
    assert a >= 0;
    assert ChunkList(source, pageSize)[i] == SkipTake(source, a, pageSize);
  }

  /** Pages laid out as consecutive pageSize-wide windows concatenate to a prefix of the source. */
  lemma {:induction false} WindowsPrefix<T>(source: seq<T>, pageSize: int, pages: seq<seq<T>>, k: nat)
    requires pageSize > 0 && k <= |pages|
    requires forall i :: 0 <= i < |pages| ==> pages[i] == Window(source, pageSize, i)
    ensures Concat(pages[..k]) == source[..Cut(source, pageSize, k)]
  {
    if k == 0 {
      assert pages[..0] == [];
    } else {
      WindowsPrefix(source, pageSize, pages, k - 1);
      var a, b := Cut(source, pageSize, k - 1), Cut(source, pageSize, k);
      CutStep(source, pageSize, k - 1);
      assert pages[k - 1] == source[a..b];
      assert pages[..k] == pages[..k - 1] + [pages[k - 1]];
      ConcatSnoc(pages[..k - 1], pages[k - 1]);
      assert source[..a] + source[a..b] == source[..b];
    }
  }

  /**
    A list longer than one page is split into ceil(Count / pageSize) + 1
    pages: page i is the window [pageSize * i, pageSize * i + pageSize), all
    pages but the last are non-empty, the last is empty, and the pages
    concatenate back to the list.
  */
  lemma ChunkListSplits<T>(source: seq<T>, pageSize: int)
    requires pageSize > 0 && |source| > pageSize
    ensures var pages := ChunkList(source, pageSize);
      && |pages| == CeilDiv(|source|, pageSize) + 1
      && (forall i :: 0 <= i < |pages| ==> pages[i] == Window(source, pageSize, i))
      && (forall i :: 0 <= i < |pages| - 1 ==> pages[i] != [])
      && pages[|pages| - 1] == []
      && Concat(pages) == source
  {
    var pages := ChunkList(source, pageSize);
    var n, total := |source|, CeilDiv(|source|, pageSize);
    CeilDivBounds(n, pageSize);
    assert |pages| == total + 1;
    forall i | 0 <= i < |pages|
      ensures pages[i] == Window(source, pageSize, i)
    {
      ChunkListPage(source, pageSize, i);
    }
    forall i | 0 <= i < |pages| - 1
      ensures pages[i] != []
    {
      WindowStartsInside(n, pageSize, total, i);
    }
    assert pages[total] == [] by {
      ChunkListPage(source, pageSize, total);
      assert pageSize * total >= n;
    }
    WindowsPrefix(source, pageSize, pages, |pages|);
    assert pages[..|pages|] == pages;
    CutStep(source, pageSize, total);
  }

  lemma WindowStartsInside(n: int, pageSize: int, total: int, i: int)
    requires pageSize > 0 && pageSize * (total - 1) < n && 0 <= i <= total - 1
    ensures pageSize * i < n
  {
    assert pageSize * (total - 1) == pageSize * i + pageSize * (total - 1 - i);
    assert pageSize * (total - 1 - i) >= 0;
  }

  // ---------------------------------------------------------------------
  // ChunkIterator

  /** The chunks ChunkIterator yields for a positive size. */
  function Chunks<T>(source: seq<T>, size: int): (chunks: seq<seq<T>>)
    requires size > 0
    ensures |source| > 0 <==> |chunks| > 0
    ensures forall i :: 0 <= i < |chunks| ==> 0 < |chunks[i]| <= size
    decreases |source|
  {
    if |source| == 0 then []
    else if |source| <= size then [source]
    else [source[..size]] + Chunks(source[size..], size)
  }

  /**
    Every chunk but the last holds exactly size elements, the last between 1
    and size; the chunks concatenate to the source; an empty source gives no
    chunk.
  */
  lemma {:induction false} ChunksShape<T>(source: seq<T>, size: int)
    requires size > 0
    ensures var cs := Chunks(source, size);
      && Concat(cs) == source
      && (cs == [] <==> |source| == 0)
      && (forall i :: 0 <= i < |cs| - 1 ==> |cs[i]| == size)
      && (cs != [] ==> 0 < |cs[|cs| - 1]| <= size)
    decreases |source|
  {
    if |source| == 0 {
    } else if |source| <= size {
      ConcatSnoc([], source);
    } else {
      var rest := Chunks(source[size..], size);
      ChunksShape(source[size..], size);
      ConcatCons(source[..size], rest);
      assert source[..size] + source[size..] == source;
    }
  }

  /**
    ChunkIterator: fills a fresh array of the given size from the enumerator
    and yields it; a last, partial chunk is resized to its length. A negative
    size fails on the array allocation, a zero size on the first store; both
    only once the source has an element.
  */
  method ChunkIterator<T(0)>(source: seq<T>, size: int) returns (r: Result<seq<seq<T>>, Exception>)
    ensures |source| > 0 && size < 0 ==> r == Failure(Overflow)
    ensures |source| > 0 && size == 0 ==> r == Failure(IndexOutOfRange)
    ensures |source| == 0 ==> r == Success([])
    ensures size > 0 ==> r == Success(Chunks(source, size))
  {
    var chunks: seq<seq<T>> := [];
    var pos := 0;  // elements consumed by MoveNext
    while pos < |source|
      invariant 0 <= pos <= |source|
      invariant size <= 0 ==> pos == 0 && chunks == []
      invariant size > 0 ==> Chunks(source, size) == chunks + Chunks(source[pos..], size)
      decreases |source| - pos
    {
      if size < 0 {
        return Failure(Overflow);
      }
      if size == 0 {
        return Failure(IndexOutOfRange);
      }
      var chunk := new T[size];
      var start := pos;
      chunk[0] := source[pos];
      pos := pos + 1;
      var i := 1;
      while i < chunk.Length && pos < |source|
        invariant 1 <= i <= chunk.Length
        invariant pos == start + i <= |source|
        invariant chunk[..i] == source[start..pos]
      {
        chunk[i] := source[pos];
        pos := pos + 1;
        i := i + 1;
      }
      var rest := source[start..];
      if i == chunk.Length {
        assert chunk[..] == chunk[..i] == source[start..pos];
        assert rest[..size] == source[start..pos];
        if |rest| > size {
          assert rest[size..] == source[pos..];
        } else {
          assert rest[..size] == rest && source[pos..] == [];
        }
        chunks := chunks + [chunk[..]];
      } else {
        assert pos == |source| && chunk[..i] == rest;
        assert Chunks(rest, size) == [rest];
        chunks := chunks + [chunk[..i]];  // Array.Resize(ref chunk, i)
        return Success(chunks);
      }
    }
    if size > 0 {
      assert Chunks(source[pos..], size) == [];
      assert chunks + [] == chunks;
    }
    return Success(chunks);
  }

  /** Page: a List goes to Chunk(List), anything else to the general chunker. */
  method Page<T(0)>(source: Enumerable<T>, pageSize: int) returns (r: Result<seq<seq<T>>, Exception>)
    requires !(source.ListOf? && pageSize == 0 && |source.items| > 0)
    ensures source.Null? ==> r == Failure(NullReference)
    ensures source.ListOf? ==> r == Success(ChunkList(source.items, pageSize))
    ensures !source.Null? && !source.ListOf? && pageSize > 0 ==> r == Success(Chunks(source.items, pageSize))
    ensures !source.Null? && !source.ListOf? && pageSize <= 0 ==>
      r == (if |source.items| == 0 then Success([])
            else if pageSize == 0 then Failure(IndexOutOfRange)
            else Failure(Overflow))
  {
    match source {
      case Null =>
        r := Failure(NullReference);
      case ListOf(items) =>
        r := Success(ChunkList(items, pageSize));
      case _ =>
        r := ChunkIterator(source.items, pageSize);
    }
  }

  // ---------------------------------------------------------------------
  // DistinctBy

  /** The keys of the elements of s. */
  function KeySet<T, K>(s: seq<T>, key: T -> K): set<K> {
    if |s| == 0 then {} else KeySet(s[..|s| - 1], key) + {key(s[|s| - 1])}
  }

  /** s[i] is the first element of s with its key. */
  predicate IsFirst<T, K(==)>(s: seq<T>, key: T -> K, i: int)
    requires 0 <= i < |s|
  {
    forall j :: 0 <= j < i ==> key(s[j]) != key(s[i])
  }

  /** DistinctBy: the elements whose key has not been seen before, in source order. */
  function DistinctBy<T, K(==)>(s: seq<T>, key: T -> K): seq<T> {
    if |s| == 0 then []
    else if key(s[|s| - 1]) in KeySet(s[..|s| - 1], key) then DistinctBy(s[..|s| - 1], key)
    else DistinctBy(s[..|s| - 1], key) + [s[|s| - 1]]
  }

  /** The positions in s of the elements DistinctBy keeps. */
  function KeptIndices<T, K(==)>(s: seq<T>, key: T -> K): seq<nat> {
    if |s| == 0 then []
    else if key(s[|s| - 1]) in KeySet(s[..|s| - 1], key) then KeptIndices(s[..|s| - 1], key)
    else KeptIndices(s[..|s| - 1], key) + [|s| - 1]
  }

  /** k is a key of s exactly when some element of s has key k. */
  lemma {:induction false} KeySetMember<T, K>(s: seq<T>, key: T -> K, k: K)
    ensures k in KeySet(s, key) <==> exists i :: 0 <= i < |s| && key(s[i]) == k
  {
    if |s| > 0 {
      var init := s[..|s| - 1];
      KeySetMember(init, key, k);
      if k in KeySet(init, key) {
        var i :| 0 <= i < |init| && key(init[i]) == k;
        assert key(s[i]) == k;
      }
      if exists i :: 0 <= i < |s| && key(s[i]) == k {
        var i :| 0 <= i < |s| && key(s[i]) == k;
        if i < |s| - 1 {
          assert key(init[i]) == k;
        }
      }
    }
  }

  /**
    DistinctBy keeps, in source order, exactly the first element of each
    key: its output is s at strictly increasing positions, each a first
    occurrence, and every first occurrence is among them.
  */
  lemma {:induction false} DistinctByKeepsFirstOccurrences<T, K>(s: seq<T>, key: T -> K)
    ensures var out, idx := DistinctBy(s, key), KeptIndices(s, key);
      && |idx| == |out|
      && (forall a :: 0 <= a < |idx| ==> idx[a] < |s| && out[a] == s[idx[a]] && IsFirst(s, key, idx[a]))
      && (forall a, b :: 0 <= a < b < |idx| ==> idx[a] < idx[b])
      && (forall i :: 0 <= i < |s| && IsFirst(s, key, i) ==> i in idx)
  {
    if |s| > 0 {
      var n := |s| - 1;
      var init, x := s[..n], s[n];
      DistinctByKeepsFirstOccurrences(init, key);
      KeySetMember(init, key, key(x));
      forall i | 0 <= i < n
        ensures IsFirst(s, key, i) == IsFirst(init, key, i)
      {
        assert forall j :: 0 <= j <= i ==> s[j] == init[j];
      }
      if key(x) in KeySet(init, key) {
        var j :| 0 <= j < n && key(init[j]) == key(x);
        assert key(s[j]) == key(s[n]);
        assert !IsFirst(s, key, n);
      } else {
        forall j | 0 <= j < n
          ensures key(s[j]) != key(s[n])
        {
          assert s[j] == init[j];
        }
        assert IsFirst(s, key, n);
      }
    }
  }

  /** Every element of s shares its key with a first occurrence at or before it. */
  lemma {:induction false} HasFirstOccurrence<T, K>(s: seq<T>, key: T -> K, i: int)
    requires 0 <= i < |s|
    ensures exists f :: 0 <= f <= i && key(s[f]) == key(s[i]) && IsFirst(s, key, f)
    decreases i
  {
    if !IsFirst(s, key, i) {
      var j :| 0 <= j < i && key(s[j]) == key(s[i]);
      HasFirstOccurrence(s, key, j);
    }
  }

  /** The keys DistinctBy yields are pairwise distinct and are all the source keys. */
  lemma DistinctByKeys<T, K>(s: seq<T>, key: T -> K)
    ensures var out := DistinctBy(s, key);
      && (forall a, b :: 0 <= a < b < |out| ==> key(out[a]) != key(out[b]))
      && KeySet(out, key) == KeySet(s, key)
  {
    var out, idx := DistinctBy(s, key), KeptIndices(s, key);
    DistinctByKeepsFirstOccurrences(s, key);
    forall a, b | 0 <= a < b < |out|
      ensures key(out[a]) != key(out[b])
    {
      assert idx[a] < idx[b];
      assert IsFirst(s, key, idx[b]);
      assert out[a] == s[idx[a]];
    }
    forall k
      ensures k in KeySet(out, key) <==> k in KeySet(s, key)
    {
      KeySetMember(out, key, k);
      KeySetMember(s, key, k);
      if k in KeySet(s, key) {
        var i :| 0 <= i < |s| && key(s[i]) == k;
        HasFirstOccurrence(s, key, i);
        var f :| 0 <= f <= i && key(s[f]) == key(s[i]) && IsFirst(s, key, f);
        assert f in idx;
        var a :| 0 <= a < |idx| && idx[a] == f;
        assert key(out[a]) == k;
      }
      if k in KeySet(out, key) {
        var a :| 0 <= a < |out| && key(out[a]) == k;
        assert key(s[idx[a]]) == k;
      }
    }
  }

  /** A sequence whose keys are already distinct passes through DistinctBy unchanged. */
  lemma {:induction false} DistinctByOfDistinct<T, K>(s: seq<T>, key: T -> K)
    requires forall a, b :: 0 <= a < b < |s| ==> key(s[a]) != key(s[b])
    ensures DistinctBy(s, key) == s
  {
    if |s| > 0 {
      var init := s[..|s| - 1];
      DistinctByOfDistinct(init, key);
      KeySetMember(init, key, key(s[|s| - 1]));
      assert init + [s[|s| - 1]] == s;
    }
  }

  /** Applying DistinctBy twice with the same key is applying it once. */
  lemma DistinctByIdempotent<T, K>(s: seq<T>, key: T -> K)
    ensures DistinctBy(DistinctBy(s, key), key) == DistinctBy(s, key)
  {
    DistinctByKeys(s, key);
    DistinctByOfDistinct(DistinctBy(s, key), key);
  }

  /**
    DistinctByIterator: walks the source once, adding each key to a hash set
    and yielding the element when the key was not already in the set.
  */
  method DistinctByIterator<T, K(==)>(source: seq<T>, keySelector: T -> K) returns (out: seq<T>)
    ensures out == DistinctBy(source, keySelector)
  {
    out := [];
    if |source| > 0 {
      var seen: set<K> := {};
      var i := 0;
      while i < |source|
        invariant 0 <= i <= |source|
        invariant seen == KeySet(source[..i], keySelector)
        invariant out == DistinctBy(source[..i], keySelector)
      {
        var element := source[i];
        assert source[..i + 1][..i] == source[..i];
        if keySelector(element) !in seen {
          seen := seen + {keySelector(element)};
          out := out + [element];
        }
        i := i + 1;
      }
      assert source[..|source|] == source;
    }
  }
}
