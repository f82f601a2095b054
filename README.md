# SV.Enums core, modelled in Dafny

SV.Enums is a small .NET library that caches enum metadata for fast name and
value lookups. This project models three parts of it:

- **`FastReadOnlyDictionary<TKey,TValue>`** (module `FastDictionary`). This is a
  build-once hash map with separate chaining. It has:
  - a power-of-two bucket array, sized for load factor 0.75 and at least 8;
  - entries placed at `hash & (Length - 1)`;
  - a rehash when the table must grow;
  - a constructor that fails with `ArgumentException` on a repeated key;
  - lookup by walking one chain;
  - enumeration in bucket order, then chain order.

  The class keeps the bucket array (each chain is a sequence of entries) and a
  ghost map `Contents`. `Valid()` states these invariants:
  - every entry sits in its slot;
  - keys are distinct within each chain;
  - the chains store exactly `Contents`;
  - `size` equals both the number of keys and the number of entries;
  - the length is at least `CalculateCapacity(size)`.
- **The sequence helpers** (module `EnumerableExtensions`): `Chunk` over a list,
  `Page`, `ChunkIterator`, `DistinctByIterator`, `TryGetNonEnumeratedCount`,
  `IsNullOrEmpty`/`IsNotNullOrEmpty` and `AsList`. Module
  `DictionaryExtensions` holds `ToFastReadOnlyDictionary`.
- **The enum metadata cache** (modules `Primitives`, `Enums`, `EnumRegistry`):
  - the numeric fallback `Enums.TryParseUnderlyingTypeString`;
  - the tables that `EnumInfo<T>` builds once per enum type, and their queries;
  - the shared `EnumBase<T>.TryParse`;
  - the checked `ToEnum` conversions;
  - the `Enums<T>.Info` cache, with `CheckInfo` and `SetEnumInfo`.

An enum type is given as a declaration (`EnumDecl`). It lists:
- the storage kind, a `TypeCode`;
- the members in `Enum.GetNames` order, each with its integer value, its
  optional `EnumMemberAttribute` payload and its `LabelAttribute`s;
- the `Flags` bit.

An enum value is its integer value. The string hash and key hashes are
parameters (`hash: K -> int`). A C# exception is the `Failure` case of a
`Result`, and a `null` result is `None`.

The order in which `membersByName.AllKV()` yields its pairs depends on the hash.
The model therefore builds `EnumInfo` from any enumeration `kvs` that yields each
declared `(name, value)` pair once (`Enumerates`). `EnumRegistry.NewEnumInfo`
shows that the real dictionary's `AllKV` is such an enumeration. Every property
of the tables is proved for every such order.

## Model

| member | source | states |
|---|---|---|
| FastDictionary.LeastPow2From | src/SV.Enums/FastReadOnlyDictionary.cs:147-150 | the doubling loop ends at a power of two that is at least the start and the target; either it is the start or its half is below the target |
| FastDictionary.CapacityFor | src/SV.Enums/FastReadOnlyDictionary.cs:145-156 | the capacity is a power of two, at least 8, and at least `(4n)/3` (the integer form of `n / 0.75f`) |
| FastDictionary.CapacityIsLeast | src/SV.Enums/FastReadOnlyDictionary.cs:145-156 | no smaller power of two that is at least 8 and at least `(4n)/3` exists: the capacity is the least one |
| FastDictionary.CapacityMonotonic | src/SV.Enums/FastReadOnlyDictionary.cs:145-156 | a larger collection never gets a smaller capacity |
| FastDictionary.Pow2Gap | src/SV.Enums/FastReadOnlyDictionary.cs:148-150 | of two distinct powers of two, the larger is at least twice the smaller |
| FastDictionary.CalculateCapacity | src/SV.Enums/FastReadOnlyDictionary.cs:145-156 | the loop computes exactly `CapacityFor(collectionSize)` |
| FastDictionary.Slot | src/SV.Enums/FastReadOnlyDictionary.cs:96 | `hash & (length - 1)` is always an index of the bucket array |
| FastDictionary.Reinsert | src/SV.Enums/FastReadOnlyDictionary.cs:63-72 | moving entries into fresh chains keeps the number of buckets |
| FastDictionary.ConcatMembers | src/SV.Enums/FastReadOnlyDictionary.cs:205-219 | an entry is enumerated exactly when it is in some chain |
| FastDictionary.ConcatUpdateLength | src/SV.Enums/FastReadOnlyDictionary.cs:93-140 | replacing one chain changes the number of reachable entries by the difference in that chain's length |
| FastDictionary.ConcatAllEmpty | src/SV.Enums/FastReadOnlyDictionary.cs:41-43 | a table of empty chains reaches no entry |
| FastDictionary.ConcatKeysDistinct | src/SV.Enums/FastReadOnlyDictionary.cs:205-219 | when entries sit in their slots and chains have distinct keys, the entries reached through the first k buckets carry pairwise distinct keys and hash to those buckets |
| FastDictionary.InChainSnoc | src/SV.Enums/FastReadOnlyDictionary.cs:99-137 | after appending an entry, a key is in the chain exactly when it was before or is the new entry's key |
| FastDictionary.AppendPlaced | src/SV.Enums/FastReadOnlyDictionary.cs:93-140 | appending an entry at its hash's slot keeps every entry in its slot |
| FastDictionary.AppendDistinct | src/SV.Enums/FastReadOnlyDictionary.cs:115-119 | appending a key absent from its chain keeps the chain's keys distinct |
| FastDictionary.RepresentsLookup | src/SV.Enums/FastReadOnlyDictionary.cs:181-197 | in a table that stores a map, a key is in the chain at its slot exactly when it is in the map |
| FastDictionary.InsertPreserves | src/SV.Enums/FastReadOnlyDictionary.cs:93-140 | adding a fresh key stores the updated map, with one more reachable entry |
| FastDictionary.AddFreshKeyCount | src/SV.Enums/FastReadOnlyDictionary.cs:81-85 | adding a fresh key to a map grows its key count by one |
| FastDictionary.ReinsertSnoc | src/SV.Enums/FastReadOnlyDictionary.cs:63-72 | rehashing one more entry is rehashing the rest, then appending that entry at its stored hash's slot |
| FastDictionary.MovedAppend | src/SV.Enums/FastReadOnlyDictionary.cs:63-72 | moving one more entry with a fresh key keeps every moved entry in its slot, exactly once |
| FastDictionary.ReinsertKeepsAll | src/SV.Enums/FastReadOnlyDictionary.cs:63-72 | when no moved key equals the new key, the rehash places every old entry exactly once, at the slot of its stored hash |
| FastDictionary.ReinsertKeepsNewKey | src/SV.Enums/FastReadOnlyDictionary.cs:69 | when the new key was already stored, it is still found after the rehash, so the add is still refused |
| FastDictionary.MovedRepresents | src/SV.Enums/FastReadOnlyDictionary.cs:63-72 | rehashed chains store the same map as before |
| FastDictionary.RehashFacts | src/SV.Enums/FastReadOnlyDictionary.cs:58-79 | after the rehash, the larger table is ready for the add: it stores the old map when the key is new, and finds the key when it is a duplicate |
| FastDictionary.StoresReady | src/SV.Enums/FastReadOnlyDictionary.cs:58-62 | a table that already has the capacity for one more entry is ready for the add without a rehash |
| FastDictionary.AddFacts | src/SV.Enums/FastReadOnlyDictionary.cs:74-86 | the add finds the key exactly when it is present; for a new key, the appended table stores the updated map with size one larger |
| FastDictionary.AddToBuckets | src/SV.Enums/FastReadOnlyDictionary.cs:93-140 | returns false exactly when the new key is already in the chain at the entry's slot (hash taken from the moved entry, or computed from the key); the buckets become `AddEntry` of the old ones, which appends the entry at the chain's tail only when the key is absent |
| FastDictionary.Rehash | src/SV.Enums/FastReadOnlyDictionary.cs:63-72 | the loop computes exactly the `Reinsert` fold against the new key: old entries are moved in bucket-then-chain order to the slot of their stored hash, and an entry whose key equals the new key is dropped (line 69); when the key is new, every old entry is kept (`ReinsertKeepsAll`) |
| FastDictionary.MoveChain | src/SV.Enums/FastReadOnlyDictionary.cs:65-71 | moving one old chain extends the rehash by that chain's entries |
| FastDictionary.EntryPairs | src/SV.Enums/FastReadOnlyDictionary.cs:213-214 | enumeration yields one pair per reachable entry |
| FastDictionary.PairsToMapLookup | src/SV.Enums/FastReadOnlyDictionary.cs:39-50 | from pairs with distinct keys the dictionary has one key per pair, each mapping to its value, and no other key |
| FastDictionary.PairsToMapHasEarlierKeys | src/SV.Enums/FastReadOnlyDictionary.cs:44-49 | every key already added is in the dictionary |
| FastDictionary.PairsPrefixStep | src/SV.Enums/FastReadOnlyDictionary.cs:44-49 | adding the next pair updates the map; the prefix stays duplicate-free exactly when its key is new; a repeated key makes the whole input invalid |
| FastDictionary.FastReadOnlyDictionary.Init | src/SV.Enums/FastReadOnlyDictionary.cs:41-43 | the empty table is valid, with `CapacityFor(collectionSize)` buckets and no entries |
| FastDictionary.FastReadOnlyDictionary.Grow | src/SV.Enums/FastReadOnlyDictionary.cs:60-73 | the grown table has exactly the new capacity and the same map and size, and is ready for the add |
| FastDictionary.FastReadOnlyDictionary.AddWithRoom | src/SV.Enums/FastReadOnlyDictionary.cs:74-87 | succeeds exactly when the key is new; then the map gains the pair, size grows by one and the table is valid; otherwise nothing changes |
| FastDictionary.FastReadOnlyDictionary.TryAddInternal | src/SV.Enums/FastReadOnlyDictionary.cs:56-88 | succeeds exactly when the key is new; then the map gains the pair, size grows by one, the table stays valid and the array is at least `CalculateCapacity(size)` long; on a duplicate the map and size are unchanged |
| FastDictionary.FastReadOnlyDictionary.New | src/SV.Enums/FastReadOnlyDictionary.cs:39-50 | a null source is `ArgumentNullException`; otherwise it succeeds exactly when the keys are distinct, failing with `ArgumentException` when they are not; the result is valid, stores the map of the pairs and counts them |
| FastDictionary.FastReadOnlyDictionary.TryGetValue | src/SV.Enums/FastReadOnlyDictionary.cs:181-197 | finds a value exactly when the key is stored, and the value is the stored one |
| FastDictionary.FastReadOnlyDictionary.ContainsKey | src/SV.Enums/FastReadOnlyDictionary.cs:177-178 | true exactly when the key is stored |
| FastDictionary.FastReadOnlyDictionary.Get | src/SV.Enums/FastReadOnlyDictionary.cs:162-165 | the stored value, or `KeyNotFoundException` exactly when the key is absent |
| FastDictionary.FastReadOnlyDictionary.Count | src/SV.Enums/FastReadOnlyDictionary.cs:173-174 | the number of stored keys |
| FastDictionary.FastReadOnlyDictionary.AllKV | src/SV.Enums/FastReadOnlyDictionary.cs:205-219 | yields each stored pair exactly once, in bucket-then-chain order, with as many pairs as `Count` |
| FastDictionary.FastReadOnlyDictionary.EnumerationSpec | src/SV.Enums/FastReadOnlyDictionary.cs:205-219 | the enumeration of a valid table has distinct keys and is exactly the stored map |
| FastDictionary.FastReadOnlyDictionary.Keys | src/SV.Enums/FastReadOnlyDictionary.cs:167-168 | the keys of the enumeration, in its order, each stored key once |
| FastDictionary.FastReadOnlyDictionary.Values | src/SV.Enums/FastReadOnlyDictionary.cs:170-171 | the values of the enumeration, in its order, each the value stored for its key |
| FastDictionary.FastReadOnlyDictionary.LoadFactor | src/SV.Enums/FastReadOnlyDictionary.cs:145-156 | a valid table is at most about three-quarters full and has at least 8 buckets |
| EnumerableExtensions.TryGetNonEnumeratedCount | src/SV.Enums/EnumerableExtensions.cs:73-94 | null throws `ArgumentNullException`; a collection gives true and its exact count; anything else gives false and 0 |
| EnumerableExtensions.NullOrEmptyComplement | src/SV.Enums/EnumerableExtensions.cs:123-155 | `IsNullOrEmpty` and `IsNotNullOrEmpty` are complements; "not empty" means the source is not null and has an element; for a collection, "empty" is exactly a count of 0 |
| EnumerableExtensions.AsList | src/SV.Enums/EnumerableExtensions.cs:157-162 | null stays null; a list is returned as is; anything else becomes a list of the same elements |
| EnumerableExtensions.IsNullOrEmpty | src/SV.Enums/EnumerableExtensions.cs:123-138 | true for null or a source with no element, the same for the List, array and IEnumerable overloads (its partner is `NullOrEmptyComplement`) |
| EnumerableExtensions.IsNotNullOrEmpty | src/SV.Enums/EnumerableExtensions.cs:140-155 | true for a non-null source with an element, the same for all three overloads (its partner is `NullOrEmptyComplement`) |
| EnumerableExtensions.ConcatSnoc | src/SV.Enums/EnumerableExtensions.cs:11-25 | concatenating one more page appends that page |
| EnumerableExtensions.ConcatCons | src/SV.Enums/EnumerableExtensions.cs:46-71 | concatenating pages with one in front prepends that page |
| EnumerableExtensions.SkipTake | src/SV.Enums/EnumerableExtensions.cs:22 | `Skip(skip).Take(take)` is the slice from `skip` of at most `take` elements, and empty for a non-positive `take` |
| EnumerableExtensions.CeilDivBounds | src/SV.Enums/EnumerableExtensions.cs:19 | `Math.Ceiling(n / d)` pages of size d cover n and one page fewer does not; more than one page's worth needs at least two |
| EnumerableExtensions.ChunkList | src/SV.Enums/EnumerableExtensions.cs:11-25 | every page is the whole list, empty, or at most `pageSize` long (the page layout is in `ChunkListPage` and `ChunkListSplits`) |
| EnumerableExtensions.ChunkListSmall | src/SV.Enums/EnumerableExtensions.cs:13-16 | a list no longer than the page size yields exactly one page, the list itself |
| EnumerableExtensions.ChunkListNegative | src/SV.Enums/EnumerableExtensions.cs:11-25 | with a negative page size, every page is empty, and there is one page exactly when the list is shorter than the negated size |
| EnumerableExtensions.Cut | src/SV.Enums/EnumerableExtensions.cs:22 | where page i starts, clipped to the list |
| EnumerableExtensions.CutStep | src/SV.Enums/EnumerableExtensions.cs:22 | each page starts one page size after the previous one, clipped to the list |
| EnumerableExtensions.ChunkListPage | src/SV.Enums/EnumerableExtensions.cs:19-23 | page i holds the elements from `pageSize*i` to `pageSize*i + pageSize`, clipped to the list |
| EnumerableExtensions.WindowsPrefix | src/SV.Enums/EnumerableExtensions.cs:19-23 | the first k pages concatenate to the list up to where page k starts |
| EnumerableExtensions.ChunkListSplits | src/SV.Enums/EnumerableExtensions.cs:17-24 | a list longer than the page size yields `ceil(Count/pageSize) + 1` pages; all but the last are non-empty, the last is empty, and together they are the list |
| EnumerableExtensions.WindowStartsInside | src/SV.Enums/EnumerableExtensions.cs:19-22 | every page before the last starts inside the list |
| EnumerableExtensions.Chunks | src/SV.Enums/EnumerableExtensions.cs:41-71 | a non-empty source gives at least one chunk and an empty one none; every chunk has 1 to `size` elements |
| EnumerableExtensions.ChunksShape | src/SV.Enums/EnumerableExtensions.cs:46-71 | chunks concatenate to the source; all but the last have exactly `size` elements; the last has 1 to `size`; an empty source has no chunks |
| EnumerableExtensions.ChunkIterator | src/SV.Enums/EnumerableExtensions.cs:46-71 | for a positive size, the chunks of the source; for an empty source, none; a non-empty source fails on size 0 (index out of range) and on a negative size (array allocation) |
| EnumerableExtensions.Page | src/SV.Enums/EnumerableExtensions.cs:27-37 | null fails with `NullReferenceException`; a list is split by `Chunk(List)`; any other sequence is split by the chunk iterator: its chunks for a positive size, nothing when empty, and otherwise `IndexOutOfRangeException` for size 0 and `OverflowException` for a negative size |
| EnumerableExtensions.KeySetMember | src/SV.Enums/EnumerableExtensions.cs:103-120 | a key is in the set of seen keys exactly when some element carries it |
| EnumerableExtensions.DistinctBy | src/SV.Enums/EnumerableExtensions.cs:96-120 | the reference definition of `DistinctBy`: each element whose key was not seen before, in source order (its properties are the lemmas below) |
| EnumerableExtensions.DistinctByKeepsFirstOccurrences | src/SV.Enums/EnumerableExtensions.cs:103-120 | the output is, in source order, exactly the elements whose key appears for the first time |
| EnumerableExtensions.HasFirstOccurrence | src/SV.Enums/EnumerableExtensions.cs:103-120 | every element shares its key with a first occurrence at or before it |
| EnumerableExtensions.DistinctByKeys | src/SV.Enums/EnumerableExtensions.cs:103-120 | output keys are pairwise distinct, and they are exactly the source's keys |
| EnumerableExtensions.DistinctByOfDistinct | src/SV.Enums/EnumerableExtensions.cs:103-120 | a sequence whose keys are already distinct passes through unchanged |
| EnumerableExtensions.DistinctByIdempotent | src/SV.Enums/Enums.cs:66 | de-duplicating by value twice is de-duplicating once |
| EnumerableExtensions.DistinctByIterator | src/SV.Enums/EnumerableExtensions.cs:103-120 | the hash-set loop yields exactly `DistinctBy` of the source |
| DictionaryExtensions.Selected | src/SV.Enums/EnumerableExtensions.cs:177-180 | one projected pair per element, in source order, built from the two selectors |
| DictionaryExtensions.SelectedLookup | src/SV.Enums/EnumerableExtensions.cs:177-180 | the projected pairs have distinct keys exactly when the selected keys are distinct; then the map sends each element's key to its value and has no other key |
| DictionaryExtensions.ToFastReadOnlyDictionary | src/SV.Enums/EnumerableExtensions.cs:177-180 | null fails with `ArgumentNullException`; otherwise it succeeds exactly when the selected keys are distinct, failing with `ArgumentException` otherwise; the dictionary stores the projected pairs |
| DictionaryExtensions.DistinctByPairKeys | src/SV.Enums/Enums.cs:1135-1139 | the pairs projected from a `DistinctBy` by the same key never repeat a key, so building their dictionary cannot fail |
| DictionaryExtensions.DistinctByMapKeys | src/SV.Enums/Enums.cs:1135-1139 | the dictionary built after `DistinctBy` has exactly the source's keys |
| DictionaryExtensions.DistinctByMapFirst | src/SV.Enums/Enums.cs:1135-1139 | in that dictionary, a key maps to the projection of the first element that carries it |
| Primitives.CheckedConvert | src/SV.Enums/Enums.cs:357-414 | a checked conversion succeeds exactly when the value fits the target type, keeps the value, and otherwise throws `OverflowException` |
| Primitives.RoundHalfEven | src/SV.Enums/Enums.cs:977-1043 | the rounding `Convert.ToX` applies to a floating or decimal value: within one half of it, a tie going to the even integer |
| Primitives.Digits | src/SV.Enums/Enums.cs:1045-1109 | decimal digits without a leading zero |
| Primitives.ParseInteger | src/SV.Enums/Enums.cs:146-273 | a literal is parsed only if it has an optional sign and then digits; a negative result needs a minus sign; plain digits read as their value |
| Primitives.DigitsRoundTrip | src/SV.Enums/Enums.cs:146-273 | reading back the digits of n gives n |
| Primitives.ParseFormat | src/SV.Enums/Enums.cs:146-273 | parsing the printed form of any integer gives it back |
| Primitives.TryParseIntegral | src/SV.Enums/Enums.cs:148-229 | the width-specific parser accepts exactly the literals whose value fits the type, and returns that value |
| Primitives.TryParseFormat | src/SV.Enums/Enums.cs:148-229 | every value of the type, printed, is accepted and read back |
| Primitives.FoldToLower | src/SV.Enums/Enums.cs:1148-1165 | a lower-cased string equals the original, ignoring case |
| Primitives.TryParseChar | src/SV.Enums/Enums.cs:240-248 | accepts exactly one UTF-16 code unit and returns its code |
| Primitives.TryParseBoolean | src/SV.Enums/Enums.cs:250-258 | "True" gives 1 and "False" gives 0, ignoring case; nothing else is accepted |
| Enums.TryParseUnderlyingTypeString | src/SV.Enums/Enums.cs:146-274 | for an integer storage kind, succeeds exactly when the string is a literal that fits the kind, with its value; Char and Boolean use their parsers; every other kind misses |
| Enums.UnderlyingStringRoundTrip | src/SV.Enums/Enums.cs:146-274 | every value of an integer storage kind, printed in decimal, is read back by the fallback |
| Enums.UInt64FallbackRejectsLargeValues | src/SV.Enums/Enums.cs:230-238 | as written, a UInt64 literal above `UInt32.MaxValue` is refused; the corrected fallback reads it |
| Enums.TryParseUnderlyingTypeStringAsWritten | src/SV.Enums/Enums.cs:230-238 | as written: the same as the corrected fallback for every kind but UInt64, where no accepted value exceeds `UInt32.MaxValue` |
| Enums.MemberPairs | src/SV.Enums/Enums.cs:1131-1132 | one `(name, value)` pair per declared member, in `GetNames` order |
| Enums.FieldOf | src/SV.Enums/Enums.cs:1137 | `GetField(name)` returns a member of that name, a declared one when there is one |
| Enums.FieldOfDeclared | src/SV.Enums/Enums.cs:1137 | `GetField(name)` finds the member with that name |
| Enums.BuildInfo | src/SV.Enums/Enums.cs:1128-1146 | names, values and the member pairs have one entry per declared member |
| Enums.Lookup | src/SV.Enums/FastReadOnlyDictionary.cs:181-197 | `TryGetValue` on a dictionary's contents: found exactly for a stored key, with its value |
| Enums.TryParseIgnoreCase | src/SV.Enums/Enums.cs:1148-1152 | `TryGetValue` on the ignore-case dictionary at the folded name (partners: `ParseIgnoreCaseDeclared`, `ScanAgreesWithTable`) |
| Enums.TryParse | src/SV.Enums/Enums.cs:1167-1185 | the name lookup (exact, or ignoring case) wins whenever it succeeds; only when it misses is the numeric fallback tried |
| Enums.MemberPairsDistinct | src/SV.Enums/Enums.cs:1134 | the member pairs never repeat a name, so building `membersByName` cannot throw |
| Enums.TablesAligned | src/SV.Enums/Enums.cs:1131-1134 | `values[i]` is the value of `names[i]`, in declaration order; `membersByName` maps each name to its value and has as many keys as members; `IsEmpty` holds exactly when nothing is declared |
| Enums.IsDefinedExact | src/SV.Enums/Enums.cs:1222-1225 | `IsDefined` holds exactly for a declared name, compared case-sensitively |
| Enums.GetName | src/SV.Enums/Enums.cs:1187-1191 | a name exactly when the value is a key of `namesByMember`, namely that entry's name (partner: `GetNameDeclared`) |
| Enums.GetEnumMember | src/SV.Enums/Enums.cs:1193-1196 | null whenever `GetName` is null; otherwise the attribute of `GetName`'s member |
| Enums.GetLabels | src/SV.Enums/Enums.cs:1198-1201 | a label table exactly when `GetName` has a name, namely that member's labels |
| Enums.GetLabel | src/SV.Enums/Enums.cs:1203-1206 | a label exactly when `GetLabels` has a table holding the index, and then the label stored at it |
| Enums.IsDefined | src/SV.Enums/Enums.cs:1222-1225 | holds exactly when the exact-name `TryGetValue` succeeds (partner: `IsDefinedExact`) |
| Enums.IsEmpty | src/SV.Enums/Enums.cs:1126 | holds exactly when `GetValues` is empty (partner: `TablesAligned`) |
| Enums.ParseDeclaredName | src/SV.Enums/Enums.cs:1178-1185 | a declared name parses to its member's value |
| Enums.ParseUndeclaredName | src/SV.Enums/Enums.cs:1178-1185 | an undeclared name gets exactly the numeric fallback's answer |
| Enums.ParseUnknownWord | src/SV.Enums/Enums.cs:1178-1185 | "xxxxx" does not parse, whatever the storage kind |
| Enums.EnumeratedMember | src/SV.Enums/Enums.cs:1141 | each pair the enumeration yields is a declared member |
| Enums.MemberEnumerated | src/SV.Enums/Enums.cs:1141 | each declared member is yielded by the enumeration |
| Enums.IgnoreCaseTable | src/SV.Enums/Enums.cs:1141 | when no two names fold together, the ignore-case dictionary maps each folded name to its member's value and has no other key |
| Enums.FoldedKeysDistinct | src/SV.Enums/Enums.cs:1141 | the enumeration never repeats a folded name when the declaration does not |
| Enums.ParseIgnoreCaseDeclared | src/SV.Enums/Enums.cs:1148-1176 | ignoring case, the lower-cased form of every declared name parses to its member's value |
| Enums.ByValueEntry | src/SV.Enums/Enums.cs:1135-1139 | `namesByMember` has a key for each value the enumeration yields, holding the information of the first pair with that value |
| Enums.GetNameDeclared | src/SV.Enums/Enums.cs:1187-1191 | `GetName` is defined exactly for declared values; it returns a declared name with that value, namely the first one the enumeration yields |
| Enums.GetNameThenParse | src/SV.Enums/Enums.cs:1178-1191 | a name `GetName` returns parses back to the value it was asked for |
| Enums.LabelsOfMember | src/SV.Enums/Enums.cs:1138 | a member's label dictionary has exactly the indices its labels carry, each with the value of the first label of that index |
| Enums.MemberAttributes | src/SV.Enums/Enums.cs:1193-1206 | for an undeclared value, `GetEnumMember`, `GetLabels` and `GetLabel` are null; for a declared one, they read the attribute and the labels of the member `GetName` names |
| Enums.FirstFoldingSpec | src/SV.Enums/Enums.cs:1153-1163 | the scan finds a member exactly when one folds like the name, and then returns the first such |
| Enums.TryParseIgnoreCaseScan | src/SV.Enums/Enums.cs:1153-1163 | the loop over members returns the first one equal to the name ignoring case |
| Enums.ScanAgreesWithTable | src/SV.Enums/Enums.cs:1148-1165 | when no two names fold together, the scan and the ignore-case dictionary agree on every string |
| Enums.EnumBaseTryParse | src/SV.Enums/Enums.cs:108-130 | `EnumBase.TryParse` returns the name lookup whenever it succeeds, and the numeric fallback otherwise |
| Enums.EnumBaseByValue | src/SV.Enums/Enums.cs:58-70 | `EnumBase`'s value table: pairs de-duplicated twice by value, then keyed by value (its properties are in `EnumBaseByValueFirstDeclared`) |
| Enums.EnumBaseByValueFirstDeclared | src/SV.Enums/Enums.cs:57-70 | `EnumBase`'s value table holds exactly the declared values, each with the information of the first member declared with it |
| Enums.EnumInfoIsEnumBase | src/SV.Enums/Enums.cs:1167-1176 | `EnumInfo.TryParse` is `EnumBase.TryParse` over `EnumInfo`'s two name lookups |
| Enums.Parse | src/SV.Enums/Enums.cs:294-306 | succeeds exactly when `TryParse` does, with its value, and otherwise throws `ArgumentException` |
| Enums.ToEnumFromIntegral | src/SV.Enums/Enums.cs:357-912 | succeeds exactly when the value fits the storage kind, keeping it; otherwise `OverflowException` for an integral kind and `InvalidOperationException` for any other kind |
| Enums.ToEnumFromBoolean | src/SV.Enums/Enums.cs:914-975 | 1 or 0 exactly for an integer kind; `InvalidCastException` for Char; `InvalidOperationException` otherwise |
| Enums.ToEnumFromString | src/SV.Enums/Enums.cs:1045-1109 | a parsable name or literal gives its value; otherwise an integer kind fails with `OverflowException` for a literal out of range and `FormatException` for anything else, a Char kind fails with `FormatException`, and a non-integral kind with `InvalidOperationException` |
| Enums.ToEnumFromObject | src/SV.Enums/Enums.cs:977-1043 | a string goes to `ToEnum(string)`, an integral value to the checked conversion, a bool to `ToEnum(bool)`; a double, float or decimal is rounded half to even and then range-checked for an integer kind and is an `InvalidCastException` for Char; null gives 0 for an integral kind; an object that is not convertible is an `InvalidCastException`; a non-integral kind is an `InvalidOperationException` |
| Enums.FormatIsNotIdentifier | src/SV.Enums/Enums.cs:1045-1109 | the decimal form of a number starts with a digit or a minus sign, so it is never a member name |
| Enums.ToEnumRoundTrip | src/SV.Enums/Enums.cs:357-1109 | every declared value of an integer-backed enum comes back from ToEnum: from an integral, from its boxed form, from its name and from its decimal string |
| EnumRegistry.NewEnumInfo | src/SV.Enums/Enums.cs:1128-1146 | building `membersByName` succeeds, and its `AllKV` order enumerates the declaration; the metadata is the tables built over that order |
| EnumRegistry.EnumeratesByName | src/SV.Enums/Enums.cs:1134-1141 | any sequence that yields each entry of the exact-name dictionary once enumerates the declaration |
| EnumRegistry.EnumCache.constructor | src/SV.Enums/Enums.cs:282 | the cache starts empty |
| EnumRegistry.EnumCache.CheckInfo | src/SV.Enums/Enums.cs:285-292 | an existing `Info` is returned unchanged; a missing one is built from the declaration and stored |
| EnumRegistry.EnumCache.SetEnumInfo | src/SV.Enums/Enums.cs:141-144 | replaces `Info`, whether or not it was built |
| EnumRegistry.EnumCache.Parse | src/SV.Enums/Enums.cs:294-306 | `Parse` on the cached metadata, building it first if needed |
| EnumRegistry.EnumCache.TryParse | src/SV.Enums/Enums.cs:308-316 | `TryParse` on the cached metadata |
| EnumRegistry.EnumCache.GetName | src/SV.Enums/Enums.cs:318-321 | `GetName` on the cached metadata |
| EnumRegistry.EnumCache.IsDefined | src/SV.Enums/Enums.cs:333-336 | `IsDefined` on the cached metadata |
| EnumRegistry.EnumCache.ToEnum | src/SV.Enums/Enums.cs:977-1043 | `ToEnum(object)` on the cached storage kind |
| EnumRegistry.ParseDeclaredThroughCache | src/SV.Enums/Enums.cs:285-306 | on a fresh cache, `Parse` of a declared name yields its value, and a second `Parse` gives the same answer from the cached metadata |

## Left out

- `Entry.Next` links are modelled as the order of a sequence per bucket. The model does not capture the aliasing of entry objects.
- `TryAddInternal`'s `resultingValue` out-parameter is not modelled. The constructor ignores it.
- `FastDictionary.FastReadOnlyDictionary.TryAddInternal`: after a rehash caused by a duplicate key, the table may lose old entries, because the rehash compares chains against the new key (line 69). The model then promises only that the map and size are unchanged, not `Valid()`. The constructor throws in that case anyway.
- The capacity is computed over unbounded integers. The 32-bit overflow of `(int)(collectionSize / 0.75f)` and of the doubling loop for huge collections is not modelled. `n / 0.75f` is modelled as `(4n)/3`; float rounding at very large sizes is not modelled.
- Key equality is Dafny equality, and `EqualityComparer<TKey>.Default.GetHashCode` is the parameter `hash`. The `DistinctBy` comparer is always the default one.
- `TryGetNonEnumeratedCount` is the library's own version, not the .NET 6 built-in. A projection (`Select`) is not a collection, so `ToFastReadOnlyDictionary` pre-sizes the table for 4 entries.
- `ReadOnlyOrdinalIgnoreCaseStringDictionary` is not part of this model. It is represented by a map keyed by the ASCII-folded name, built over the `AllKV` order. The model assumes the last entry wins on a folded collision. The ignore-case properties are proved only when no two names fold together.
- Case folding covers ASCII letters only. Culture rules, white-space trimming and non-ASCII folding of the .NET parsers and of `OrdinalIgnoreCase` are not modelled.
- The `Single` case of the numeric fallback is modelled as a miss (floating point). The Boolean case is modelled as the value 1 or 0; the reinterpretation of a `long` into a narrower storage type is not modelled.
- `Unsafe.As` is the identity on values within the storage kind's range. The upper bytes that the UInt64 case reads past a 32-bit local are modelled as zero.
- Reflection (`Enum.GetNames`, `Enum.Parse`, `GetField`, custom attributes, `FlagsAttribute`, `GetTypeCode`) is replaced by the input declaration. `GetUnderlyingType`, `IsFlags` and `GetNames`/`GetValues` are fields of the tables. `EnumMemberAttribute` is an optional opaque string.
- `EnumInfo`'s dictionaries are represented by the maps they store. Only `membersByName` is built with `FastReadOnlyDictionary`, to obtain its `AllKV` order.
- A user-supplied `IEnumInfo` given to `SetEnumInfo` is modelled as an `EnumInfo` value; arbitrary implementations are not.
- `Enums.FieldOf`: an undeclared name yields an empty stand-in member. `GetField` is only ever asked for declared names.
- `Enums<T>.Info` is modelled as a single-threaded cache. The unsynchronised check-then-create is not modelled.
- The forwarding members of `Enums<T>` for `GetEnumMember`, `GetLabels`, `GetLabel`, `GetNames`, `GetValues`, `IsFlags` and `IsEmpty` all read the cached metadata through `CheckInfo`, just as the modelled `Parse`, `TryParse`, `GetName`, `IsDefined` and `ToEnum` do. They are not repeated.
- The nine integral `ToEnum` overloads share one model, `ToEnumFromIntegral`, because they differ only in the argument's type.
- `null` strings are not modelled; a string is always a character sequence.
- `EnumerableExtensions.ChunkList` and `EnumerableExtensions.DistinctByIterator` take a sequence, so a `null` source is not modelled for them. In C# both accept `null` and throw `NullReferenceException` on the first enumeration (`source.Count` at line 13, `source.GetEnumerator()` at line 105). `Page` does model the null case.
- `EnumerableExtensions.ChunkList`, `EnumerableExtensions.ChunkListPage` and `EnumerableExtensions.ChunkListSplits` compute `pageSize * i` over unbounded integers. The source multiplies in 32-bit `int`, which wraps once `pageSize * i` exceeds `int.MaxValue`. That can happen when `Count + pageSize` exceeds 2^31. For example, with `Count` = 2^30 + 1 and `pageSize` = 2^30, the source's last page is `Skip(int.MinValue).Take(2^30)`, the first 2^30 elements again, while the model's last page is empty. The model's page layout holds only for lists where the product does not wrap.
- `AsCollection`, `AsyncEmpty`, `EmptyAsyncEnumerator` and `LabelAttribute` carry no logic and are not modelled.
- `ToEnumFromObject`: NaN and infinite doubles, which `Convert.ToX` refuses with `OverflowException`, are not modelled; a boxed value is a finite rational. A boxed `char` is modelled as a boxed integral value, and any other `IConvertible` that refuses the conversion (such as `DateTime`) as a non-convertible object.
- `Chunk`, `ChunkIterator`, `DistinctByIterator` and `Page` are lazy iterators in C#: their exceptions surface when the result is enumerated, not when it is called. The model computes the whole result at once and returns a failure as a `Result`.
- The model combines the .NET 7 ignore-case dictionary (`membersByNameOrdinalIgnoreCase`) with the library's own `ChunkIterator`, `DistinctByIterator` and `TryGetNonEnumeratedCount`, which are compiled only before .NET 6. No single build has both. The pre-.NET 7 ignore-case scan is modelled as well (`TryParseIgnoreCaseScan`), and agrees with the dictionary when no two names fold together.
- `ChunkList` requires a non-zero page size for a non-empty list. The source casts an infinite page count to `int`, which is unspecified.

## Findings

| source | as written | input that shows it | evidently intended | confidence | as-written member | corrected member |
|---|---|---|---|---|---|---|
| src/SV.Enums/Enums.cs:230-238 | the UInt64 case of the numeric fallback calls `UInt32.TryParse` and reinterprets a 32-bit local as a 64-bit value | `Enums<E>.TryParse("4294967296", out v)` for an enum backed by `ulong` that does not declare that name returns false | `UInt64.TryParse`, accepting every value up to `UInt64.MaxValue` | not executed | Enums.TryParseUnderlyingTypeStringAsWritten (shown by Enums.UInt64FallbackRejectsLargeValues) | Enums.TryParseUnderlyingTypeString (proved by Enums.UnderlyingStringRoundTrip) |

The rest of the model uses the corrected fallback, so the correction also shows in everything built on it: `Enums.TryParse`, `Enums.Parse`, `Enums.ToEnumFromString`, `Enums.ToEnumFromObject` and the `EnumCache` methods. For an enum backed by `ulong`, `TryParse("4294967296")` is false in the source but succeeds in the model, and `Parse` of that string throws `ArgumentException` in the source but succeeds in the model. `ToEnum` of that string agrees either way, because the source then falls through to `Convert.ToUInt64`.
