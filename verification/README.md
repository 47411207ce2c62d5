# BeeCP statement cache, modelled in Dafny

This project models the per-connection prepared-statement cache of BeeCP, in
`src/main/java/cn/beecp/pool/StatementCache.java`. It has two parts.

- **`StatementCache`** is a bounded LRU cache. It pairs a `HashMap` from key to
  node with a doubly linked recency chain: `head` is the least recently used
  node and `tail` the most recently used one. `getStatement` looks a key up and
  promotes a hit to the tail. `putStatement` appends a new node at the tail. If
  the map then holds more than `capacity` entries, it evicts the head and
  closes the head's statement. `clearStatement` closes every statement and
  empties the cache.
- **`StatementCachePsKey` / `StatementCacheCsKey`** are the immutable cache
  keys. Each is tagged with a type code: `TYPE1`..`TYPE6` for prepared
  statements, `TYPE7`..`TYPE9` for callable statements. `equals` dispatches on
  the type code, and the constructor precomputes `hashCode` with the ×31
  combination.

## Files

| file | module | contents |
|---|---|---|
| `wrappers.dfy` | `Wrappers` | `Option`, standing for a Java reference that may be `null` |
| `java_int.dfy` | `JavaInt` | Java `int` values and wrap-around (`Wrap`, `Combine31`) |
| `statement_keys.dfy` | `StatementKeys` | the two key classes as datatypes (`PsKey`, `CsKey`, `CacheKey`), plus `equals`, `hashCode` and `Arrays.equals`/`Arrays.hashCode` |
| `statement_cache.dfy` | `StatementCache` | the cache state, its invariant `Valid`, and `Get`/`Put`/`Clear` |
| `cache_properties.dfy` | `CacheProperties` | properties of sequences of calls: promotion, eviction order, the capacity-2 example, keys in the cache |

## How the model is built

- **Cache state.** `Cache(capacity, order, entries, closed)` holds four fields:
  - `order`: the chain from head to tail, as a sequence of keys.
  - `entries`: the `nodeMap`, with each node reduced to its statement handle.
  - `closed`: every handle passed to `oclose`, in call order.
  Nodes and their `pre`/`next` links are not modelled: the order of the
  sequence is the chain. The handle type `H` is a type parameter, and so is
  the key type `K`.
- **Operations.** `Get` and `Put` are pure functions from state to state.
  `Clear` is a method, because the Java code walks the map in the `HashMap`'s
  own order. That order is unspecified, so the method picks any remaining
  entry at each step and returns the order it used.
- **Invariant.** `Valid` says:
  - the capacity is at least 1;
  - the chain has no duplicates;
  - every node on the chain has an entry in the map;
  - the chain is as long as the map is large;
  - the map holds at most `capacity` entries.

  `ChainKeysAreMapKeys` derives from this that the chain's keys are exactly
  the map's keys. `Get` and `Put` take `Valid` as a precondition and keep it.
  It is the class invariant that every public operation of the Java class
  maintains.
- **Keys.** Each Java constructor is one datatype constructor. A column array
  may be `null`, so it is an `Option<seq<…>>`. An element of a `String[]` may
  also be `null`, so it is an `Option<string>`.
  - `PsEquals`, `CsEquals` and `KeyEquals` follow the Java `equals`: the
    `instanceof` test, then the type-code test, then the field switch.
  - `KeyEqualsIsValueEquality` proves that this `equals` is exactly datatype
    equality. A Dafny `map` keyed by `CacheKey` is therefore a faithful model
    of the `HashMap` as long as no key's column array changes after the key
    is built. The Java keys keep the caller's array without copying it, and a
    later change to that array would break the agreement of `equals` with
    the stored `hashCode` (see "Left out").
- **Hashing.** `String.hashCode` is a parameter `sh: string -> Int32`, so
  every hash property holds for any string hash. The `int` arithmetic of the
  hash is modelled with explicit wrap-around modulo 2^32.

## Model

| member | source | states |
|---|---|---|
| `StatementCache.New` | src/main/java/cn/beecp/pool/StatementCache.java:35-38 | the constructor throws exactly when the map's initial size `capacity*2`, in `int` arithmetic, is negative: for every capacity from 2^30 up, and from -2^30 to -1. Otherwise it yields a cache with no entries, an empty chain and nothing closed, which satisfies the invariant for every capacity from 1 to 2^30 - 1 |
| `StatementCache.Empty` | src/main/java/cn/beecp/pool/StatementCache.java:35-38 | the state a successful constructor leaves holds no entries, has an empty chain and has closed nothing; with a capacity of at least 1 it satisfies the invariant |
| `StatementCache.Get` | src/main/java/cn/beecp/pool/StatementCache.java:39-58 | a missing key gives `null` and leaves the map, the chain and the closed log unchanged. A present key gives its stored handle and moves to the MRU end, with the other keys in their old order; map and log are unchanged. When the key is already the tail, or the map holds one entry, nothing changes. The invariant is kept |
| `StatementCache.Unlink` | src/main/java/cn/beecp/pool/StatementCache.java:44-50 | splicing a node out of the chain, whether it is the head or a middle node, removes exactly that key and keeps the order of the others |
| `StatementCache.Put` | src/main/java/cn/beecp/pool/StatementCache.java:59-80 | an absent key becomes the MRU entry with its handle. Below capacity, nothing is evicted or closed. At capacity, exactly the former head is removed from chain and map, and only its handle is closed. The invariant (size at most `capacity`) is kept |
| `StatementCache.Clear` | src/main/java/cn/beecp/pool/StatementCache.java:81-91 | every cached key is visited once, and its handle is closed once, in visiting order. Afterwards the map and chain are empty and the capacity is unchanged. On an empty cache it closes nothing and changes nothing, so it is idempotent |
| `StatementCache.ChainKeysAreMapKeys` | src/main/java/cn/beecp/pool/StatementCache.java:32-34 | under the invariant, a key is on the chain exactly when it is in the map |
| `StatementCache.ChainHoldsEveryKey` | src/main/java/cn/beecp/pool/StatementCache.java:40-48 | every key found in the map has a node on the chain, so a hit can always be unlinked |
| `StatementCache.PromoteKeepsValid` | src/main/java/cn/beecp/pool/StatementCache.java:43-56 | moving a cached key to the tail keeps the chain duplicate-free and the chain consistent with the map |
| `StatementCache.AppendKeepsValid` | src/main/java/cn/beecp/pool/StatementCache.java:60-68 | appending a fresh key below capacity keeps the invariant |
| `StatementCache.EvictKeepsValid` | src/main/java/cn/beecp/pool/StatementCache.java:69-78 | appending a fresh key to a full cache and dropping the head restores the size to exactly `capacity` and keeps the invariant |
| `StatementCache.WithoutAt` | src/main/java/cn/beecp/pool/StatementCache.java:45-49 | on a duplicate-free chain, relinking a node's neighbours equals filtering its key out of the sequence |
| `CacheProperties.PromotionKeepsRelativeOrder` | src/main/java/cn/beecp/pool/StatementCache.java:43-56 | a lookup hit moves only the key looked up; every other key keeps its position relative to the rest |
| `CacheProperties.LookupOfMruKeepsEvictionOrder` | src/main/java/cn/beecp/pool/StatementCache.java:43-43 | looking up the tail and then inserting gives the same state as inserting directly, so a lookup of the MRU entry never changes which entry is evicted |
| `CacheProperties.PromotedKeySurvivesNextEviction` | src/main/java/cn/beecp/pool/StatementCache.java:43-78 | after a lookup promotes a key in a full cache, the next insert evicts the first of the other keys instead; that is the former second-oldest when the promoted key was the head. The promoted key stays, and only the evicted key's handle is closed |
| `CacheProperties.FillUpToCapacity` | src/main/java/cn/beecp/pool/StatementCache.java:59-68 | requests for distinct uncached keys that fit are all misses: the keys line up in request order, each with its own handle, and nothing is closed |
| `CacheProperties.OverflowEvictsFirstInserted` | src/main/java/cn/beecp/pool/StatementCache.java:59-79 | inserting `capacity + 1` distinct keys into an empty cache keeps the last `capacity` keys, in order, and evicts and closes only the first |
| `CacheProperties.CapacityTwoScenario` | src/main/java/cn/beecp/pool/StatementCache.java:39-79 | capacity 2: insert A, insert B, look up A (returns A's handle, chain becomes B, A), insert C. B is evicted and its handle closed; A and C remain, in that order |
| `CacheProperties.DifferentTypeCodesOccupySeparateSlots` | src/main/java/cn/beecp/pool/StatementCache.java:180-185 | a `TYPE1` key and a `TYPE2` key with the same SQL text are two cache entries; each lookup returns its own handle |
| `StatementKeys.PsTypeCode` | src/main/java/cn/beecp/pool/StatementCache.java:114-120 | every prepared-statement key has a type code between 1 and 6 |
| `StatementKeys.CsTypeCode` | src/main/java/cn/beecp/pool/StatementCache.java:201-205 | every callable-statement key has a type code between 7 and 9 |
| `StatementKeys.ElementsEqual` | src/main/java/cn/beecp/pool/StatementCache.java:186-187 | comparing column arrays element by element succeeds exactly when the sequences are equal, whatever array holds them |
| `StatementKeys.ArraysEquals` | src/main/java/cn/beecp/pool/StatementCache.java:186-187 | `Arrays.equals` on possibly-null arrays: two nulls are equal, a null and a non-null array are not, and two non-null arrays are equal when their contents are |
| `StatementKeys.PsEquals` | src/main/java/cn/beecp/pool/StatementCache.java:179-192 | `StatementCachePsKey.equals` on two prepared-statement keys: true implies the same type code and the same SQL text, and it holds exactly when the keys are the same value |
| `StatementKeys.CsEquals` | src/main/java/cn/beecp/pool/StatementCache.java:238-251 | `StatementCacheCsKey.equals` on two callable-statement keys: true implies the same type code and the same SQL text, and it holds exactly when the keys are the same value |
| `StatementKeys.KeyEquals` | src/main/java/cn/beecp/pool/StatementCache.java:179-192 | keys with different type codes are never equal, and a prepared-statement key never equals a callable-statement key |
| `StatementKeys.KeyEqualsIsValueEquality` | src/main/java/cn/beecp/pool/StatementCache.java:183-190 | within a type code, `equals` compares exactly the fields of that type code: scalars by value, SQL text exactly, column arrays by content. It holds precisely when the two keys are the same value |
| `StatementKeys.KeyEqualsIsEquivalence` | src/main/java/cn/beecp/pool/StatementCache.java:179-251 | `equals` is reflexive, symmetric and transitive across both key classes |
| `StatementKeys.EqualKeysHaveEqualHashes` | src/main/java/cn/beecp/pool/StatementCache.java:123-177 | equal keys have equal precomputed hash codes, for every `String.hashCode`, as long as their column arrays are unchanged since construction |
| `StatementKeys.SameSqlDifferentTypeNeverEqual` | src/main/java/cn/beecp/pool/StatementCache.java:180-182 | two keys with the same SQL text but different type codes are unequal in both directions |
| `StatementKeys.PsNeverEqualsCs` | src/main/java/cn/beecp/pool/StatementCache.java:239-250 | a prepared-statement key and a callable-statement key are unequal in both directions |
| `StatementKeys.ColumnArraysComparedByContent` | src/main/java/cn/beecp/pool/StatementCache.java:143-150 | two column-name keys whose arrays are different instances with equal contents are equal and hash identically |
| `StatementKeys.PsHash` | src/main/java/cn/beecp/pool/StatementCache.java:123-172 | the hash each `StatementCachePsKey` constructor stores, wrapped at every `int` step, equals the polynomial in 31 of its field hashes (in the order the constructor combines them), truncated once to 32 bits |
| `StatementKeys.CsHash` | src/main/java/cn/beecp/pool/StatementCache.java:207-232 | the hash each `StatementCacheCsKey` constructor stores equals the polynomial in 31 of its field hashes, truncated once to 32 bits |
| `StatementKeys.HashCode` | src/main/java/cn/beecp/pool/StatementCache.java:173-177 | `hashCode()` of either key class returns the stored hash, which is the key's field hashes as a polynomial in 31, truncated once to 32 bits |
| `StatementKeys.ElementsHash` | src/main/java/cn/beecp/pool/StatementCache.java:140-141 | `Arrays.hashCode` of a non-null array, computed from 1 with a wrapping ×31 step per element, is 31^n plus the sum of each element hash times 31^(n-1-i), truncated once to 32 bits |
| `StatementKeys.ArraysHash` | src/main/java/cn/beecp/pool/StatementCache.java:146-148 | `Arrays.hashCode` of a `null` array is 0, and of a non-null array the truncated polynomial above; a `null` element of a `String[]` hashes to 0 |
| `JavaInt.Wrap` | src/main/java/cn/beecp/pool/StatementCache.java:157-159 | an `int` result is the unique value in the `int` range that is congruent to the unbounded result modulo 2^32; a result already in range is unchanged |
| `JavaInt.Combine31OfTruncated` | src/main/java/cn/beecp/pool/StatementCache.java:168-171 | one step `prime * hashCode + field` in `int` arithmetic depends only on the running hash modulo 2^32 |

## Left out

- `oclose` is a foreign call, and its body is not modelled. A close is an append to `closed`. A failing close changes nothing else, exactly as the suppressed exception leaves the map and chain.
- `HashMap` internals are not modelled: hashing into buckets and load-factor resizing. The initial size `capacity*2` (line 37) is modelled only for its overflow, which makes `StatementCache.New` fail. The map is a Dafny `map`, and `KeyEqualsIsValueEquality` is what makes that faithful for these keys while their arrays stay unchanged.
- StatementCache.Empty: the state itself does not say when the Java constructor throws; `StatementCache.New` does, and the capacity range where `capacity*2` overflows (2^30 and up) yields no cache there.
- Node objects, their `pre`/`next` links and pointer relinking are not modelled, including the stale `pre` left on a promoted head (line 46). The chain is the sequence `order`.
- StatementCache.Put: requires the key to be absent. The Java code would also accept a key that is already cached: it overwrites the map entry and leaves the old node on the chain with its statement unclosed. The owning connection only inserts after a missed lookup, so this case is not modelled.
- Capacities below 1 are not modelled: `Valid` requires `capacity >= 1`. With capacity 0, the first insert would skip the overflow check (lines 62-63).
- The `head == tail` branch of `putStatement` (lines 72-74) is left out because it is unreachable. That branch runs right after a new node was appended behind an existing tail, so the chain always has at least two nodes there.
- The `default: return false` branches of both `equals` (lines 190, 246) are left out because they are unreachable. The type code is only ever set by the constructors, and the datatype has exactly one constructor per code.
- The precomputed `hashCode` field is not stored. `HashCode` computes it from the key's fields, which equals the stored value only while those fields are unchanged since construction.
- StatementKeys.EqualKeysHaveEqualHashes: assumes a key's column array is not changed after the key is built. The Java constructors keep the caller's `int[]` or `String[]` without copying it (lines 138, 146), `equals` reads the array as it is now (lines 186-187), but the hash was fixed at construction (lines 140, 148). A caller that changes the array afterwards can produce two `equals` keys with different hash codes, and an entry the `HashMap` can no longer find. Column arrays are immutable sequences here, so that aliasing cannot be expressed. The same assumption underlies `StatementKeys.KeyEqualsIsValueEquality` and `StatementKeys.ColumnArraysComparedByContent`.
- `String.hashCode` is an arbitrary function passed as a parameter, not Java's exact algorithm. A `null` SQL text is not modelled: the Java constructors throw on one.
- StatementCache.Get, StatementCache.Put: require the class invariant `Valid`, which the Java methods take for granted without checking.
- Thread safety is not modelled: the cache is owned by one connection and does no locking.
- `org/jmin/bee/pool/ProxyResultSet.java` is not part of this model. It is a delegation wrapper whose only logic is a closed flag.
- `CacheProperties.Request` models how the owning connection uses the cache (look up, and on a miss prepare and insert). That caller is not part of this model's source; it exists only to state properties of runs of requests.
