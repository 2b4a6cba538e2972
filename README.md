# cimap in Dafny

A model of `CaseInsensitiveMap[T]` from the Go package `cimap`, with proofs about it. The map is a hash table whose string keys compare case-insensitively.
A pluggable hasher sends each key to a bucket of a Go map. Each bucket holds a singly linked chain of nodes (key, value, next).
A `size` counter tracks how many entries `Add` and `Delete` think are stored.

The project is laid out as follows:

- `hashing.dfy` has ASCII case folding (`Lower`, `EqualFold`) and the default hasher, which iterates over the characters, multiplying by the prime and then exclusive-or-ing the lower-cased character code.
  `DefaultHash` states that hasher as a pure fold and `DefaultHashString` as the accumulator loop of `defaultHashString`.
- `chains.dfy` represents a chain as a sequence of `Entry(key, value)`.
  The node walks `insertOrReplace` and `node.delete` are loops over that sequence, each proved equal to a sequence edit: `Upsert` or `Unlinked`.
- `tables.dfy` represents the table as a value `Table(size, buckets)`. It defines Lookup (what `Get` finds), Added (what `Add` does) and Deleted (what `Delete` does, as written).
  It also gives the table invariants: chains are non-empty, entries are filed under their key's hash, no chain holds two case variants, and `size` counts the reachable entries.
- `traversal.dfy` describes the walk shared by `Keys`, `Iterator`, `ForEach` and `MarshalJSON`. Go's map iteration order becomes an explicit sequence of bucket keys, and early stopping becomes `StopPrefix`.
- `rehash.dfy` models `SetHasher`'s rebuild, which re-files each chain whole under the new hash of its head.
- `json.dfy` models `MarshalJSON` as an export of the walked entries into a `map<string, T>`. It models `UnmarshalJSON` as a fold of Added over the decoded pairs, and proves the export/import round trip.
- `cimap.dfy` has the class `CaseInsensitiveMap<T>`. Its fields are the Go struct's (`size`, `hasher`, `buckets`) plus the flags `hasherSet` and `storeMade`, which record whether the zero value's nil hasher and nil map have been set up.
  Each method is proved against the table functions above (`State() == Added(old(State()), hasher, k, v)` and so on).
- `scenarios.dfy` states runs from `cimap_test.go` as facts about fixed keys and hashers.

The model follows the code where the code departs from its own comments:

- **Delete removes the whole bucket.** `node.delete` on a head match only rebinds its receiver (cimap.go:320-322). `Delete` then drops the whole bucket on any match, and decreases `size` by one (cimap.go:141-143).
  Any other entries chained in that bucket are lost, and the counter no longer equals the number of reachable entries.
  `Deleted`, `DeleteLosesChainmates` and `CollidedDelete` state this. The invariants survive only when the matched chain has length one (`DeleteKeepsConsistent`).
- **SetHasher re-files whole chains.** Each chain is re-filed under the new hash of its head key (cimap.go:229-231). Two heads that collide under the new hasher overwrite each other, and `size` is not changed.
  `Rehash`, `RehashBounded` and `CollapsingRehash` state this. `RehashSingletonsConsistent` and `RehashSingletonsRetrievable` prove that nothing is lost when every chain is a single entry and the new hasher keeps the heads apart.
- **The default hash uses FNV-1 order.** The comment at cimap.go:303 calls it FNV-1a, but the loop multiplies by the prime before the exclusive-or (cimap.go:309-310), which is the FNV-1 order of the FNV draft (draft-eastlake-fnv).
  `MixIsNotFnv1aOrder` shows the two orders already differ on the key "a".

## Model

| member | source | states |
|---|---|---|
| Hashing.EqualFoldPointwise | cimap.go:85 | Two keys are case variants exactly when they have the same length and agree at every position after ASCII lower-casing. |
| Hashing.DefaultHashString | cimap.go:306-313 | The accumulator loop returns the fold `DefaultHash`: start from the offset basis, then multiply by the prime and exclusive-or the lower-cased character code, wrapping modulo 2^64. |
| Hashing.DefaultHashShape | cimap.go:307-311 | The empty key hashes to the offset basis 14695981039346656037. Appending a character multiplies the prefix's hash by 1099511628211 and then exclusive-ors the character's lower-cased code. |
| Hashing.HashFromAppend | cimap.go:308-311 | Hashing `s + [c]` equals mixing `c` into the hash of `s`. |
| Hashing.MixIsNotFnv1aOrder | cimap.go:303-311 | The hash of "a" follows the multiply-then-exclusive-or order and differs from the exclusive-or-then-multiply order named in the comment. |
| Hashing.HashFromFolds | cimap.go:308-311 | From any starting accumulator, keys that agree position by position after lower-casing hash alike. |
| Hashing.DefaultHashFolds | cimap.go:306-313 | Case variants get the same default hash. |
| Hashing.DefaultHashIsCaseInvariant | cimap.go:306-313 | The default hasher sends every pair of case variants to the same bucket. |
| Chains.FindIndex | cimap.go:84-89 | Returns the position of the first case variant of the key in the chain, or the chain's length if there is none. Every earlier entry is not a case variant. |
| Chains.InsertOrReplace | cimap.go:338-350 | Reports whether some entry of the chain was a case variant of the key. The new chain is `Upsert`: that entry's key and value are overwritten in place, or `Entry(k, v)` is appended at the tail. |
| Chains.NodeDelete | cimap.go:319-331 | Reports whether the chain holds a case variant of the key. The new chain is `Unlinked`: unchanged on a head match or a miss, with the match cut out on an interior match. |
| Chains.FindAfterUpsert | cimap.go:338-350 | After an upsert of `k`, a lookup of a case variant of `k` finds `Entry(k, v)`, and every other lookup finds what it found before. |
| Chains.UpsertShape | cimap.go:338-350 | An upsert grows the chain by one exactly when the key was absent. It keeps the chain free of duplicate case variants, and adds no entry other than `Entry(k, v)`. |
| Chains.FindAfterUnlink | cimap.go:319-331 | Unlinking `k` does not change the lookup of any key that is not a case variant of `k`. |
| Chains.FindIndexUnique | cimap.go:84-89 | Any position satisfying the first-match conditions is the one `FindIndex` returns. |
| Chains.FindFold | cimap.go:85 | Case variants find the same entry of a chain. |
| Chains.FindStored | cimap.go:84-89 | In a chain without duplicate case variants, looking up a stored key finds that entry. |
| Chains.EqualFoldTrans | cimap.go:85 | Being a case variant is transitive. |
| Tables.CountZero | cimap.go:153-155 | When every chain is non-empty, the store holds no entry exactly when it has no bucket. |
| Tables.LookupStored | cimap.go:83-93 | In a table whose entries are filed by hash and whose chains have no duplicates, every stored entry is found under its own key. |
| Tables.LookupFound | cimap.go:83-93 | A successful lookup of `q` finds an entry of bucket `hasher(q)` whose key is a case variant of `q`. |
| Tables.LookupFold | cimap.go:83-93 | Under a case-invariant hasher, case variants look up the same entry. |
| Tables.LookupAfterAdd | cimap.go:62-72 | After `Add(k, v)`, a key in `k`'s bucket that is a case variant of `k` finds `Entry(k, v)`, with the new casing and value. Every other key finds what it found before. |
| Tables.LookupAfterAddCaseInvariant | cimap.go:62-72 | Under a case-invariant hasher, after `Add(k, v)` every case variant of `k` finds `Entry(k, v)` and every other key finds what it found before. |
| Tables.AddCount | cimap.go:62-72 | `Add` raises the reachable count and the counter by one exactly when the key was absent, and by zero otherwise. It keeps non-empty chains and a counter that covers them. |
| Tables.AddKeepsConsistent | cimap.go:62-72 | `Add` keeps all table invariants: non-empty chains, entries filed under their hash, no duplicate case variants, and a counter equal to the reachable count. |
| Tables.LookupAfterDelete | cimap.go:140-145 | After `Delete(k)`, if `k` was found, every key hashing to `k`'s bucket misses. All other lookups are unchanged, and on a miss nothing changes. |
| Tables.DeleteCount | cimap.go:140-145 | `Delete` lowers the counter by one on a hit, but removes the whole matched chain from the reachable count. |
| Tables.DeleteKeepsConsistent | cimap.go:140-145 | `Delete` keeps the table invariants when the matched chain is a single entry, or when nothing matched. |
| Tables.DeleteLosesChainmates | cimap.go:141-143 | On a hit in a chain of length n > 1, the counter overshoots the reachable count by n - 1 afterwards, and the table is no longer consistent. |
| CiMap.CaseInsensitiveMap.Zero | cimap.go:23-27 | The zero value of the struct is an empty table with no hasher installed and no internal map made. |
| CiMap.CaseInsensitiveMap.New | cimap.go:41-52 | An empty table with counter 0 and the default hasher installed. |
| CiMap.CaseInsensitiveMap.Add | cimap.go:62-72 | The new state is `Added` of the old one. The counter grows exactly when the key was absent, the invariants are preserved, and the hasher is unchanged. |
| CiMap.CaseInsensitiveMap.Get | cimap.go:83-93 | Reports found exactly when the bucket of `hasher(k)` holds a case variant of `k`, and returns the first such entry's value. The table is not modified. |
| CiMap.CaseInsensitiveMap.Delete | cimap.go:140-145 | The new state is `Deleted` of the old one. The hasher is unchanged. |
| CiMap.CaseInsensitiveMap.GetAndDel | cimap.go:105-113 | Returns what `Get` would have found. The new state is `Deleted` of the old one, which leaves the table unchanged on a miss. |
| CiMap.CaseInsensitiveMap.GetOrSet | cimap.go:123-130 | On a hit, returns the stored value and leaves the state unchanged. On a miss, returns the given value, and the state becomes `Added` of the old one. |
| CiMap.CaseInsensitiveMap.Len | cimap.go:153-155 | Returns the counter, which in a consistent table is the number of reachable entries. |
| CiMap.CaseInsensitiveMap.Clear | cimap.go:163-166 | Leaves an empty table with counter 0 and keeps the installed hasher. |
| CiMap.CaseInsensitiveMap.SetHasher | cimap.go:224-234 | Installs the new hasher and keeps the counter. The store is unchanged when the counter is 0, and is otherwise `Rehash` of the old store in the given bucket order. |
| CiMap.CaseInsensitiveMap.Walk | cimap.go:200-210 | Visits the entries of every chain in bucket order, head first, up to and including the first entry the visitor rejects. The table is not modified. |
| CiMap.CaseInsensitiveMap.Keys | cimap.go:178-188 | Emits the keys of that walk, stopping right after the first key `emit` rejects. |
| CiMap.CaseInsensitiveMap.ForEach | cimap.go:245-253 | Hands `fn` the (key, value) pairs of that walk, stopping right after the first pair it rejects. |
| CiMap.CaseInsensitiveMap.MarshalJSON | cimap.go:288-297 | The exported object is `ExportOf` of the walked entries: one member per stored key, with the later entry winning a repeated key. |
| CiMap.CaseInsensitiveMap.UnmarshalJSON | cimap.go:265-280 | On a decode error, reports failure and changes nothing. Otherwise it keeps the installed hasher, or installs the default one. The state becomes the empty table with every decoded pair `Added` in decoder order. |
| Traversal.StopPrefix | cimap.go:245-253 | The visited entries are a prefix of the walk. Every entry but the last was accepted. A visit that stopped early ends at a rejected entry, and a non-empty walk visits at least one entry. |
| Traversal.StopPrefixAll | cimap.go:245-253 | A visitor that accepts everything sees the whole walk. |
| Traversal.StopPrefixFirst | cimap.go:245-253 | A visitor that rejects the first entry is called exactly once. |
| Traversal.StopPrefixSplit | cimap.go:247-250 | The visit stops at the first rejected entry and sees nothing after it. |
| Traversal.DistinctCard | cimap.go:180 | A bucket order without repeats over the set of bucket keys has exactly as many elements as the set. |
| Traversal.FlattenCount | cimap.go:180-186 | A full walk meets exactly as many entries as the store holds. |
| Traversal.FlattenFiled | cimap.go:180-186 | In a store whose entries are filed under their key's hash, every entry a walk meets hashes to a bucket of the walk's order. |
| Traversal.FlattenUnique | cimap.go:180-186 | In a consistent store under a case-invariant hasher, a walk meets no two case variants. |
| Traversal.FlattenHas | cimap.go:180-186 | Every entry of a walked bucket is met by the walk. |
| Traversal.FlattenFrom | cimap.go:180-186 | Every entry a walk meets is an entry of some walked bucket. |
| Traversal.FullTraversalVisitsSize | cimap.go:245-253 | In a consistent table, a visitor that always accepts is called exactly `size` times. |
| Traversal.StoppedTraversalVisitsOne | cimap.go:245-253 | In a consistent non-empty table, a visitor that always rejects is called exactly once. |
| Rehashing.FlattenCons | cimap.go:229-231 | A walk starting at a bucket meets that bucket's chain first. |
| Rehashing.RehashIntoShape | cimap.go:229-231 | Every chain of the rebuilt store is one of the old chains, filed under the new hash of its head. Every walked head's new hash is a bucket. |
| Rehashing.RehashIntoCount | cimap.go:229-231 | Rebuilding keeps chains non-empty and never makes more entries reachable than the walk met. |
| Rehashing.RehashBounded | cimap.go:224-234 | The rebuilt store with the unchanged counter still has non-empty chains and a counter covering them. |
| Rehashing.FreshHeadsStep | cimap.go:230 | Filing one chain under a fresh head hash keeps the remaining heads fresh. |
| Rehashing.RehashIntoPlaces | cimap.go:229-231 | When the heads' new hashes are distinct and fresh, every walked chain lands under its head's new hash, and the rebuild adds nothing else. |
| Rehashing.RehashIntoExactCount | cimap.go:229-231 | When the heads' new hashes are distinct and fresh, no entry is lost. |
| Rehashing.DistinctHeadsFresh | cimap.go:229-231 | Heads that stay apart under the new hasher are fresh at every step of the rebuild. |
| Rehashing.RehashBijective | cimap.go:228-232 | When heads stay apart, the new store holds each old chain under its head's new hash, and nothing else. |
| Rehashing.RehashExactCount | cimap.go:228-232 | When heads stay apart, the new store has as many reachable entries as the old. |
| Rehashing.RefiledSingletons | cimap.go:228-232 | Re-filed single-entry chains are filed under their key's new hash and have no duplicates. |
| Rehashing.RefiledLookup | cimap.go:228-232 | After re-filing single-entry chains under a case-invariant hasher, every case variant of a stored key finds its entry, and every hit is a stored entry. |
| Rehashing.RehashSingletonsConsistent | cimap.go:224-234 | A consistent table of single-entry chains stays consistent under a new hasher that keeps the heads apart. |
| Rehashing.RehashSingletonsRetrievable | cimap.go:224-234 | Under a case-invariant new hasher that keeps the heads apart, every stored pair is still found by each case variant of its key, and only stored pairs are found. |
| Json.ExportSnoc | cimap.go:292 | Exporting one more entry sets that entry's key. |
| Json.ExportKeys | cimap.go:290-294 | The exported keys are exactly the keys of the walked entries. |
| Json.ExportDistinct | cimap.go:290-294 | When walked keys are distinct, the export has one member per entry, each with its entry's value. |
| Json.FoldDistinct | cimap.go:290-294 | Keys that are not case variants of each other are distinct. |
| Json.ExportMatchesTable | cimap.go:288-297 | Under a case-invariant hasher, a consistent table exports exactly `size` members. Each member is found by Get under its exported key, and every entry Get finds is exported. |
| Json.ExportKeysUnfold | cimap.go:288-297 | Under a case-invariant hasher, no two exported keys of a consistent table are case variants. |
| Json.ExportedFound | cimap.go:288-297 | Under a case-invariant hasher, every key Get finds in a consistent table has a case variant among the exported keys. |
| Json.LastMatch | cimap.go:276-278 | The last decoded pair whose key is a case variant of `q`, or none exactly when no decoded key is one. |
| Json.AddAllKeepsConsistent | cimap.go:276-278 | Adding a sequence of pairs keeps the table invariants. |
| Json.AddAllLookup | cimap.go:276-278 | Under a case-invariant hasher, after the adds a key finds its last case variant among the added pairs, or else what it found before. |
| Json.AddAllMiss | cimap.go:276-278 | Under any hasher, a key that misses in the table and has no case variant among the added pairs still misses after the adds. |
| Json.AddAllSize | cimap.go:276-278 | Under any hasher, adding pairwise non-variant keys that all miss in the table raises the counter by their number. |
| Json.AddAllCount | cimap.go:271-278 | Under a case-invariant hasher, from the empty table, the counter after the adds is the number of pairs whose key has no case variant among the pairs before it. |
| Json.ImportedConsistent | cimap.go:265-280 | Under any hasher, importing a decoded object in which no two keys are case variants gives a consistent table with one entry per member. |
| Json.PairsMatch | cimap.go:276-278 | When no two decoded keys are case variants, the last decoded match for a variant of `k` is `k`'s own pair. |
| Json.PairsNoMatch | cimap.go:276-278 | With no decoded variant of `q`, no decoded pair matches it. |
| Json.ImportedLookup | cimap.go:265-280 | For a decoded object in which no two keys are case variants, imported under a case-invariant hasher, each case variant of a decoded key finds that key's pair, and a key with no decoded variant misses. |
| Json.ExportImportRoundTrip | cimap.go:265-297 | Exporting a table that is consistent under a case-invariant hasher, and importing the result under a case-invariant hasher (the same or another), gives a consistent table with the same `Len` in which every key finds the same (stored key, value) pair as before. |
| Scenarios.LengthHashIsCaseInvariant | cimap_test.go:108-110 | The tests' length hasher is case-invariant. |
| Scenarios.FoldsApart | cimap.go:85 | Keys of different lengths are not case variants. |
| Scenarios.FoldsDifferAt | cimap.go:85 | Keys whose lower-cased characters differ at some position are not case variants. |
| Scenarios.FoldsTogether | cimap.go:85 | Keys that agree at every position after lower-casing are case variants. |
| Scenarios.CaseVariantsOverwrite | cimap_test.go:79-89 | Through the class, "K1"→"V1" then "k1"→"V2" leaves `Len` 1, and `Get("K1")` returns ("V2", true). |
| Scenarios.MultipleAddsAndGets | cimap_test.go:79-97 | The test's five Adds leave size 3. Each logical key holds its last write in that write's casing, and "NotExist" misses. |
| Scenarios.CollidedStore | cimap_test.go:255-265 | Under the length hasher, "cdf" and "abc" share bucket 3 in insertion order. |
| Scenarios.CollidedGets | cimap_test.go:255-265 | Before the delete, both keys of the shared bucket are found with their own values. |
| Scenarios.HashCollisionGets | cimap_test.go:98-111 | Under the length hasher, "dog" then "cat" share bucket 3 in insertion order, and each is found with its own value. |
| Scenarios.CollidedDelete | cimap_test.go:255-265 | `Delete("ABC")` leaves size 1, as the test expects, but as written "cdf" is lost along with "abc". |
| Scenarios.CollapsingRehash | cimap.go:224-234 | Re-filing buckets {1: "a", 2: "bb"} under a hasher that sends everything to 0 keeps only "bb", while `size` stays 2. |

## Left out

- JSON text: the `encoding/json` encoder and decoder are external. Import takes the decoded object (`map<string, T>` with its decoder order) or a decode error, and export yields the object before encoding. Errors of `json.Marshal` are not modelled.
- Duplicate members in the JSON text: how the decoder resolves them happens before `UnmarshalJSON` sees the object, and is not modelled.
- Go map iteration order: every walk and the rebuild of `SetHasher` take the bucket order as a parameter (`order`, which lists each bucket key once). The decoder's member order is the parameter `keys`. Neither is otherwise constrained.
- Unicode: keys are sequences of characters with ASCII-only case folding. Go's `unicode.ToLower` and `strings.EqualFold` fold the whole Unicode range, but EqualFold uses folding orbits, so 'ſ' (U+017F) folds to 's' while hashing differently. Keys are modelled as sequences of characters, while Go strings are byte strings: ranging over invalid UTF-8 yields U+FFFD for each bad byte, which a sequence of characters cannot represent. Neither gap is modelled.
- The capacity hint of `New` and the pre-sizing in `SetHasher` and `UnmarshalJSON` only affect allocation. `New`'s `capacity` parameter is ignored.
- `iter.Seq` closures: `Keys` and `Iterator` return closures. The model runs the loop those closures run, with the visitor as a parameter (`Walk`, `Keys`). `Iterator` is modelled by `ForEach`, which runs the same loop over (key, value) pairs.
- Visitor side effects: visitors are pure functions, and a traversal returns the sequence of entries it handed out.
- Pointer identity: nodes are values in a sequence. In-place edits of `Key`, `Value` and `Next` become sequence updates, and aliasing between a chain and the map that holds it is not modelled.
- Nil-hasher and nil-map panics of the zero value: calls that would panic are excluded by requires clauses. Calls that hash need `hasherSet`, and calls that write to the map need `storeMade`. The zero value becomes usable through `UnmarshalJSON` (or `Clear` followed by `SetHasher`).
- `SetHasher(nil)`: Go accepts a nil hasher, then panics while rehashing a non-empty table or at the next call that hashes. The model's hasher is always a total function, so `SetHasher` always leaves a hasher installed and this panic is not modelled.
- Counter overflow: `size` is a Go `int`, and the model uses an unbounded integer.
- Zero values: on a miss, `Get` and `GetAndDel` return an arbitrary value of `T`, where Go returns `T`'s zero value.
- The `cimap_benchmark_test.go` benchmarks and the `cimap_stub_test.go` baseline map are measurements, not behaviour, and are not modelled.
