/**
 * `StatementCache`: a bounded LRU cache of prepared statements. The Java
 * class pairs a `HashMap` from key to node with a doubly linked chain of the
 * nodes, `head` the least and `tail` the most recently used. Here the chain
 * is the sequence `order`, LRU first, and the map keeps only each key's
 * statement handle. Every call of `oclose` is appended to `closed`, a record
 * of the handles closed so far; a failing close changes nothing else, so it
 * is the same record.
 */
module StatementCache {
  import opened Wrappers
  import opened JavaInt

  datatype Cache<K, H> = Cache(
    capacity: Int32,      // the constructor's `capacity`
    order: seq<K>,        // the chain from head (LRU) to tail (MRU)
    entries: map<K, H>,   // `nodeMap`, each node reduced to its handle
    closed: seq<H>        // the handles passed to `oclose`, in call order
  )

  /** The result of `getStatement`: the handle or `null`, and the cache afterwards. */
  datatype Lookup<K, H> = Lookup(handle: Option<H>, cache: Cache<K, H>)

  predicate NoDuplicates<K(==)>(s: seq<K>)
  {
    forall i, j :: 0 <= i < j < |s| ==> s[i] != s[j]
  }

  /**
   * The invariant every public operation keeps: a positive capacity, a chain
   * that visits each node once and only nodes of the map, as many nodes as
   * map entries, and no more entries than the capacity. Together these say
   * the chain holds exactly the map's keys (`ChainKeysAreMapKeys`).
   */
  predicate Valid<K(==), H>(c: Cache<K, H>)
  {
    && 1 <= c.capacity
    && NoDuplicates(c.order)
    && (forall i :: 0 <= i < |c.order| ==> c.order[i] in c.entries)
    && |c.order| == |c.entries|
    && |c.entries| <= c.capacity
  }

  /** The state a successful constructor leaves: nothing cached, nothing closed. */
  function Empty<K, H>(capacity: Int32): (c: Cache<K, H>)
    ensures c.capacity == capacity && |c.entries| == 0 && |c.order| == 0 && |c.closed| == 0
    ensures 1 <= capacity ==> Valid(c)
  {
    Cache(capacity, [], map[], [])
  }

  /**
   * `new StatementCache(capacity)`. The map's initial size `capacity * 2` is
   * computed in `int` arithmetic, and `HashMap` rejects a negative initial
   * size with an exception (`None`). That happens for every capacity from
   * 2^30 up, where the doubling overflows, and for -2^30 to -1; below
   * -2^30 the doubling wraps back to a non-negative size.
   */
  function New<K, H>(capacity: Int32): (r: Option<Cache<K, H>>)
    ensures r.None? <==> capacity >= 0x4000_0000 || -0x4000_0000 <= capacity < 0
    ensures r.Some? ==> r.value == Empty(capacity)
    ensures 1 <= capacity < 0x4000_0000 ==> r.Some? && Valid(r.value)
  {
    if Wrap(2 * capacity) < 0 then None else Some(Empty(capacity))
  }

  /** `s` with every occurrence of `k` removed, the others in their original order. */
  function Without<K(==)>(s: seq<K>, k: K): (r: seq<K>)
    ensures k !in r
    ensures forall x :: x in r ==> x in s && x != k
    ensures forall x :: x in s && x != k ==> x in r
    ensures |r| <= |s|
  {
    if |s| == 0 then []
    else if s[0] == k then Without(s[1..], k)
    else [s[0]] + Without(s[1..], k)
  }

  /** The position of `k` in `s`: the first one. */
  function IndexOf<K(==)>(s: seq<K>, k: K): (i: nat)
    requires k in s
    ensures i < |s| && s[i] == k
    ensures k !in s[..i]
  {
    if s[0] == k then 0
    else
      var j := IndexOf(s[1..], k);
      assert s[..j + 1] == [s[0]] + s[1..][..j];
      j + 1
  }

  /**
   * Takes `k`'s node out of the chain: a node at the head makes its
   * successor the head, a node in the middle has its neighbours linked to
   * each other.
   */
  function Unlink<K(==)>(order: seq<K>, k: K): (r: seq<K>)
    requires k in order
    requires NoDuplicates(order)
    ensures r == Without(order, k)
  {
    var i := IndexOf(order, k);
    WithoutAt(order, i);
    if i == 0 then order[1..] else order[..i] + order[i + 1..]
  }

  /**
   * `getStatement(k)`: `null` and no change for a missing key; otherwise the
   * stored handle, with `k` moved to the MRU end unless the map holds a
   * single entry or `k` is already the tail.
   */
  function Get<K(==), H>(c: Cache<K, H>, k: K): (r: Lookup<K, H>)
    requires Valid(c)
    ensures Valid(r.cache)
    ensures k !in c.entries ==> r.handle == None && r.cache == c
    ensures k in c.entries ==> r.handle == Some(c.entries[k])
    ensures k in c.entries ==> r.cache.order == Without(c.order, k) + [k]
    ensures r.cache.entries == c.entries && r.cache.closed == c.closed
    ensures r.cache.capacity == c.capacity
    ensures k in c.entries && (k == c.order[|c.order| - 1] || |c.entries| == 1) ==> r.cache == c
  {
    if k !in c.entries then Lookup(None, c)
    else
      ChainHoldsEveryKey(c, k);
      if |c.entries| > 1 && k != c.order[|c.order| - 1] then
        var order := Unlink(c.order, k) + [k];
        PromoteKeepsValid(c, k);
        Lookup(Some(c.entries[k]), c.(order := order))
      else
        WithoutLast(c.order, k);
        Lookup(Some(c.entries[k]), c)
  }

  /**
   * `putStatement(k, h)` for a key that is not cached: `k` becomes the MRU
   * entry; when the map then holds more than `capacity` entries the head is
   * removed from the map and its handle closed.
   */
  function Put<K(==), H>(c: Cache<K, H>, k: K, h: H): (r: Cache<K, H>)
    requires Valid(c)
    requires k !in c.entries
    ensures Valid(r)
    ensures r.capacity == c.capacity
    ensures k in r.entries && r.entries[k] == h && r.order[|r.order| - 1] == k
    ensures |c.entries| < c.capacity ==>
      && r.order == c.order + [k]
      && r.entries == c.entries[k := h]
      && r.closed == c.closed
    ensures |c.entries| == c.capacity ==>
      && |c.order| > 0
      && r.order == c.order[1..] + [k]
      && r.entries == c.entries[k := h] - {c.order[0]}
      && r.closed == c.closed + [c.entries[c.order[0]]]
  {
    var entries := c.entries[k := h];
    if |c.order| == 0 then
      AppendKeepsValid(c, k, h);
      c.(order := [k], entries := entries)
    else
      var order := c.order + [k];
      if |entries| > c.capacity then
        var victim := order[0];
        EvictKeepsValid(c, k, h);
        assert order[1..] == c.order[1..] + [k];
        Cache(c.capacity, order[1..], entries - {victim}, c.closed + [entries[victim]])
      else
        AppendKeepsValid(c, k, h);
        c.(order := order, entries := entries)
  }

  /**
   * `clearStatement()`: removes every entry while iterating the map, in the
   * map's own (unspecified) order, closing each entry's handle. `keys` is the
   * order the entries were visited in.
   */
  method Clear<K(==), H>(c: Cache<K, H>) returns (r: Cache<K, H>, keys: seq<K>)
    ensures r.capacity == c.capacity && r.order == [] && r.entries == map[]
    ensures NoDuplicates(keys)
    ensures forall k :: k in keys ==> k in c.entries
    ensures forall k :: k in c.entries ==> k in keys
    ensures |keys| == |c.entries|
    ensures |r.closed| == |c.closed| + |keys|
    ensures r.closed[..|c.closed|] == c.closed
    ensures forall i :: 0 <= i < |keys| ==> r.closed[|c.closed| + i] == c.entries[keys[i]]
    ensures |c.entries| == 0 ==> r == c.(order := [])
  {
    var remaining := c.entries;
    var closed := c.closed;
    keys := [];
    while remaining != map[]
      invariant forall k :: k in remaining ==> k in c.entries && remaining[k] == c.entries[k]
      invariant forall k :: k in c.entries ==> k in remaining || k in keys
      invariant forall k :: k in keys ==> k in c.entries && k !in remaining
      invariant NoDuplicates(keys)
      invariant |closed| == |c.closed| + |keys|
      invariant closed[..|c.closed|] == c.closed
      invariant forall i :: 0 <= i < |keys| ==> closed[|c.closed| + i] == c.entries[keys[i]]
      decreases |remaining|
    {
      var k :| k in remaining;
      closed := closed + [remaining[k]];
      keys := keys + [k];
      remaining := remaining - {k};
    }
    DistinctSize(keys, c.entries);
    r := Cache(c.capacity, [], map[], closed);
  }

  // ---------------------------------------------------------------------
  // Helper lemmas about the chain
  // ---------------------------------------------------------------------

  /** A chain without duplicates has as many nodes as the map has keys. */
  lemma {:induction false} DistinctSize<K, H>(s: seq<K>, m: map<K, H>)
    requires NoDuplicates(s)
    requires forall k :: k in s ==> k in m
    requires forall k :: k in m ==> k in s
    ensures |s| == |m|
    decreases |s|
  {
    if |s| == 0 {
      assert m.Keys == {};
    } else {
      var last := s[|s| - 1];
      var init := s[..|s| - 1];
      assert s == init + [last];
      assert forall k :: k in init ==> k in m - {last};
      assert forall k :: k in m - {last} ==> k in init;
      DistinctSize(init, m - {last});
    }
  }

  /** A chain without duplicates whose keys all lie in `keys` is no longer than `keys` is large. */
  lemma {:induction false} ChainSizeBound<K>(s: seq<K>, keys: set<K>)
    requires NoDuplicates(s)
    requires forall i :: 0 <= i < |s| ==> s[i] in keys
    ensures |s| <= |keys|
    decreases |s|
  {
    if |s| > 0 {
      var last := s[|s| - 1];
      var init := s[..|s| - 1];
      assert forall i :: 0 <= i < |init| ==> init[i] == s[i] && s[i] != last;
      ChainSizeBound(init, keys - {last});
    }
  }

  /** Every cached key has a node on the chain. */
  lemma ChainHoldsEveryKey<K, H>(c: Cache<K, H>, k: K)
    requires Valid(c)
    requires k in c.entries
    ensures k in c.order
  {
    if k !in c.order {
      assert forall i :: 0 <= i < |c.order| ==> c.order[i] in c.entries.Keys - {k};
      ChainSizeBound(c.order, c.entries.Keys - {k});
      assert false;
    }
  }

  /** Under the invariant the chain's keys are exactly the map's keys. */
  lemma ChainKeysAreMapKeys<K, H>(c: Cache<K, H>)
    requires Valid(c)
    ensures forall k :: k in c.order <==> k in c.entries
  {
    forall k | k in c.entries
      ensures k in c.order
    {
      ChainHoldsEveryKey(c, k);
    }
  }

  /** A key that is not cached has no node on the chain. */
  lemma AbsentKeyOffChain<K, H>(c: Cache<K, H>, k: K)
    requires Valid(c)
    requires k !in c.entries
    ensures k !in c.order
  {
  }

  /** Moving a cached key to the tail keeps the invariant. */
  lemma PromoteKeepsValid<K, H>(c: Cache<K, H>, k: K)
    requires Valid(c)
    requires k in c.order
    ensures Valid(c.(order := Without(c.order, k) + [k]))
  {
    var i := IndexOf(c.order, k);
    WithoutAt(c.order, i);
    WithoutKeepsDistinct(c.order, k);
    var rest := Without(c.order, k);
    AppendKeepsDistinct(rest, k);
    var order := rest + [k];
    forall j | 0 <= j < |order|
      ensures order[j] in c.entries
    {
      if j < |rest| {
        assert order[j] in rest;
      }
    }
  }

  /** Appending a fresh key below capacity keeps the invariant. */
  lemma AppendKeepsValid<K, H>(c: Cache<K, H>, k: K, h: H)
    requires Valid(c)
    requires k !in c.entries
    requires |c.entries| < c.capacity
    ensures Valid(c.(order := c.order + [k], entries := c.entries[k := h]))
  {
    AbsentKeyOffChain(c, k);
    AppendKeepsDistinct(c.order, k);
  }

  /** Appending a fresh key to a full cache and dropping the head keeps the invariant. */
  lemma EvictKeepsValid<K, H>(c: Cache<K, H>, k: K, h: H)
    requires Valid(c)
    requires k !in c.entries
    requires |c.entries| == c.capacity
    ensures |c.order| > 0
    ensures Valid(Cache(c.capacity, c.order[1..] + [k], c.entries[k := h] - {c.order[0]}, c.closed))
  {
    AbsentKeyOffChain(c, k);
    var victim := c.order[0];
    var tl := c.order[1..];
    TailOfDistinct(c.order);
    assert k !in tl;
    AppendKeepsDistinct(tl, k);
    var entries := c.entries[k := h] - {victim};
    var order := tl + [k];
    forall j | 0 <= j < |order|
      ensures order[j] in entries
    {
      if j < |tl| {
        assert order[j] == c.order[j + 1] != victim;
      }
    }
    assert |c.entries[k := h]| == c.capacity + 1;
    assert |entries| == c.capacity;
  }

  /** Appending a key that is not there keeps a chain duplicate-free. */
  lemma AppendKeepsDistinct<K>(s: seq<K>, k: K)
    requires NoDuplicates(s)
    requires k !in s
    ensures NoDuplicates(s + [k])
  {
    var r := s + [k];
    forall a, b | 0 <= a < b < |r| ensures r[a] != r[b] {
      assert r[a] == s[a];
    }
  }

  /** Removing the node at position `i` of a duplicate-free chain removes exactly its key. */
  lemma {:induction false} WithoutAt<K>(s: seq<K>, i: nat)
    requires i < |s|
    requires NoDuplicates(s)
    ensures Without(s, s[i]) == s[..i] + s[i + 1..]
    decreases |s|
  {
    TailOfDistinct(s);
    var tl := s[1..];
    if i == 0 {
      WithoutAbsent(tl, s[0]);
      assert s[..0] + s[1..] == tl;
    } else {
      assert s[0] != s[i] && tl[i - 1] == s[i];
      WithoutAt(tl, i - 1);
      SpliceAfterHead(s, i);
    }
  }

  /** The tail of a duplicate-free chain is duplicate-free and does not hold the head. */
  lemma TailOfDistinct<K>(s: seq<K>)
    requires NoDuplicates(s)
    requires |s| > 0
    ensures NoDuplicates(s[1..])
    ensures s[0] !in s[1..]
  {
    var tl := s[1..];
    forall a, b | 0 <= a < b < |tl| ensures tl[a] != tl[b] {
      assert tl[a] == s[a + 1] && tl[b] == s[b + 1];
    }
    forall b | 0 <= b < |tl| ensures tl[b] != s[0] {
      assert tl[b] == s[b + 1];
    }
  }

  /** Splicing out a node after the head is splicing it out of the tail. */
  lemma SpliceAfterHead<K>(s: seq<K>, i: nat)
    requires 0 < i < |s|
    ensures s[..i] + s[i + 1..] == [s[0]] + (s[1..][..i - 1] + s[1..][i..])
  {
    assert s[..i] == [s[0]] + s[1..][..i - 1];
    assert s[i + 1..] == s[1..][i..];
  }

  /** Removing a key that is not there changes nothing. */
  lemma {:induction false} WithoutAbsent<K>(s: seq<K>, k: K)
    requires k !in s
    ensures Without(s, k) == s
    decreases |s|
  {
    if |s| > 0 {
      WithoutAbsent(s[1..], k);
      assert s == [s[0]] + s[1..];
    }
  }

  /** Removing a key keeps the chain duplicate-free. */
  lemma {:induction false} WithoutKeepsDistinct<K>(s: seq<K>, k: K)
    requires NoDuplicates(s)
    ensures NoDuplicates(Without(s, k))
    decreases |s|
  {
    if |s| > 0 {
      TailOfDistinct(s);
      var tl := s[1..];
      WithoutKeepsDistinct(tl, k);
      if s[0] != k {
        var w := Without(tl, k);
        assert s[0] !in w;
        var r := [s[0]] + w;
        forall a, b | 0 <= a < b < |r| ensures r[a] != r[b] {
          if a == 0 {
            assert r[b] == w[b - 1];
          } else {
            assert r[a] == w[a - 1] && r[b] == w[b - 1];
          }
        }
      }
    }
  }

  /** Moving the tail (or the only node) to the tail leaves the chain as it is. */
  lemma WithoutLast<K>(s: seq<K>, k: K)
    requires NoDuplicates(s)
    requires |s| > 0 && k == s[|s| - 1]
    ensures Without(s, k) + [k] == s
  {
    var n := |s| - 1;
    WithoutAt(s, n);
    assert s[n + 1..] == [];
    assert s[..n] + [s[n]] == s;
  }
}
