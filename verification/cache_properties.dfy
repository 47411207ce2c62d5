/**
 * Properties of sequences of cache operations: LRU promotion, the order in
 * which entries are evicted, and the cache keyed by statement keys.
 */
module CacheProperties {
  import opened Wrappers
  import opened JavaInt
  import opened StatementCache
  import opened StatementKeys

  /** Removing `k` from a chain that ends in `k` is removing it from the rest. */
  lemma {:induction false} WithoutAppended<K>(s: seq<K>, k: K)
    ensures Without(s + [k], k) == Without(s, k)
    decreases |s|
  {
    if |s| == 0 {
      assert [k][1..] == [];
    } else {
      assert (s + [k])[1..] == s[1..] + [k];
      WithoutAppended(s[1..], k);
    }
  }

  /** Removing a key twice is removing it once. */
  lemma WithoutTwice<K>(s: seq<K>, k: K)
    ensures Without(Without(s, k), k) == Without(s, k)
  {
    WithoutAbsent(Without(s, k), k);
  }

  /**
   * A lookup hit moves only the key looked up: every other key keeps its
   * place relative to the others.
   */
  lemma PromotionKeepsRelativeOrder<K, H>(c: Cache<K, H>, k: K)
    requires Valid(c)
    ensures Without(Get(c, k).cache.order, k) == Without(c.order, k)
  {
    if k in c.entries {
      WithoutAppended(Without(c.order, k), k);
      WithoutTwice(c.order, k);
    }
  }

  /** A lookup of the MRU entry does not change which entry the next insert evicts. */
  lemma LookupOfMruKeepsEvictionOrder<K, H>(c: Cache<K, H>, n: K, h: H)
    requires Valid(c)
    requires |c.order| > 0
    requires n !in c.entries
    ensures Put(Get(c, c.order[|c.order| - 1]).cache, n, h) == Put(c, n, h)
  {
  }

  /**
   * A lookup promotes a key past the next eviction: when a full cache then
   * takes a new key, the evicted entry is the first of the other keys (the
   * former second-oldest, when the promoted key was the head), and the
   * promoted key stays.
   */
  lemma PromotedKeySurvivesNextEviction<K, H>(c: Cache<K, H>, k: K, n: K, h: H)
    requires Valid(c)
    requires 2 <= c.capacity == |c.entries|
    requires k in c.entries
    requires n !in c.entries
    ensures var rest := Without(c.order, k);
      && |rest| > 0
      && var after := Put(Get(c, k).cache, n, h);
      && k in after.entries
      && rest[0] !in after.entries
      && after.closed == c.closed + [c.entries[rest[0]]]
    ensures k == c.order[0] ==> Without(c.order, k)[0] == c.order[1]
  {
    ChainHoldsEveryKey(c, k);
    var l := Get(c, k).cache;
    var rest := Without(c.order, k);
    var i := IndexOf(c.order, k);
    WithoutAt(c.order, i);
    assert |rest| == |c.order| - 1;
    assert l.order[0] == rest[0];
    assert rest[0] != k;
  }

  /** The facts about a duplicate-free sequence's prefix that the fill lemmas need. */
  lemma PrefixOfDistinct<K>(ks: seq<K>, n: nat)
    requires NoDuplicates(ks)
    requires n < |ks|
    ensures NoDuplicates(ks[..n])
    ensures ks[n] !in ks[..n]
  {
    var p := ks[..n];
    forall a, b | 0 <= a < b < |p| ensures p[a] != p[b] {
      assert p[a] == ks[a] && p[b] == ks[b];
    }
    forall a | 0 <= a < |p| ensures p[a] != ks[n] {
      assert p[a] == ks[a];
    }
  }

  /**
   * How the owning connection uses the cache for one statement request: a
   * lookup, and on a miss the newly prepared handle `prepared` is inserted.
   */
  function Request<K, H>(c: Cache<K, H>, k: K, prepared: H): (r: Cache<K, H>)
    requires Valid(c)
    ensures Valid(r) && r.capacity == c.capacity
    ensures k in r.entries && r.order[|r.order| - 1] == k
    ensures k in c.entries ==> r.entries == c.entries && r.closed == c.closed
  {
    if k in c.entries then Get(c, k).cache else Put(c, k, prepared)
  }

  /** A run of requests for the keys `ks`, the i-th miss preparing `hs[i]`. */
  function RequestAll<K, H>(c: Cache<K, H>, ks: seq<K>, hs: seq<H>): (r: Cache<K, H>)
    requires Valid(c)
    requires |ks| == |hs|
    ensures Valid(r) && r.capacity == c.capacity
    decreases |ks|
  {
    if |ks| == 0 then c
    else
      var n := |ks| - 1;
      Request(RequestAll(c, ks[..n], hs[..n]), ks[n], hs[n])
  }

  /** `m` with each `ks[i]` mapped to `hs[i]`, later keys last. */
  function Extend<K, H>(m: map<K, H>, ks: seq<K>, hs: seq<H>): map<K, H>
    requires |ks| == |hs|
    decreases |ks|
  {
    if |ks| == 0 then m
    else
      var n := |ks| - 1;
      Extend(m, ks[..n], hs[..n])[ks[n] := hs[n]]
  }

  /** After distinct keys are added, each one maps to its own handle. */
  lemma {:induction false} ExtendMapsEachKey<K, H>(m: map<K, H>, ks: seq<K>, hs: seq<H>, i: nat)
    requires |ks| == |hs|
    requires NoDuplicates(ks)
    requires i < |ks|
    ensures ks[i] in Extend(m, ks, hs) && Extend(m, ks, hs)[ks[i]] == hs[i]
    decreases |ks|
  {
    var n := |ks| - 1;
    if i < n {
      PrefixOfDistinct(ks, n);
      ExtendMapsEachKey(m, ks[..n], hs[..n], i);
      assert ks[..n][i] == ks[i] && hs[..n][i] == hs[i];
    }
  }

  /**
   * Requests for distinct uncached keys that fit in the cache are all
   * misses: the keys line up in request order behind the cached ones, each
   * with its own handle, and nothing is closed.
   */
  lemma {:induction false} FillUpToCapacity<K, H>(c: Cache<K, H>, ks: seq<K>, hs: seq<H>)
    requires Valid(c)
    requires |ks| == |hs|
    requires NoDuplicates(ks)
    requires forall i :: 0 <= i < |ks| ==> ks[i] !in c.entries
    requires |c.entries| + |ks| <= c.capacity
    ensures RequestAll(c, ks, hs) == Cache(c.capacity, c.order + ks, Extend(c.entries, ks, hs), c.closed)
    decreases |ks|
  {
    if |ks| == 0 {
      assert c.order + ks == c.order;
    } else {
      var n := |ks| - 1;
      var k := ks[n];
      assert ks[..n] + [k] == ks;
      PrefixOfDistinct(ks, n);
      FillUpToCapacity(c, ks[..n], hs[..n]);
      var prefix := RequestAll(c, ks[..n], hs[..n]);
      assert prefix.order == c.order + ks[..n];
      AbsentKeyOffChain(c, k);
      assert k !in prefix.order;
      if k in prefix.entries {
        ChainHoldsEveryKey(prefix, k);
        assert false;
      }
      assert prefix.order + [k] == c.order + ks;
    }
  }

  /**
   * Inserting capacity + 1 distinct keys into an empty cache leaves the last
   * `capacity` of them and evicts, and closes, only the first.
   */
  lemma OverflowEvictsFirstInserted<K, H>(capacity: Int32, ks: seq<K>, hs: seq<H>)
    requires 1 <= capacity
    requires |ks| == |hs| == capacity + 1
    requires NoDuplicates(ks)
    ensures Valid(Empty<K, H>(capacity))
    ensures RequestAll(Empty<K, H>(capacity), ks, hs).order == ks[1..]
    ensures RequestAll(Empty<K, H>(capacity), ks, hs).closed == [hs[0]]
    ensures ks[0] !in RequestAll(Empty<K, H>(capacity), ks, hs).entries
  {
    var e := Empty<K, H>(capacity);
    var n := |ks| - 1;
    FilledToCapacity(capacity, ks, hs);
    var full := RequestAll(e, ks[..n], hs[..n]);
    assert RequestAll(e, ks, hs) == Put(full, ks[n], hs[n]);
    assert ks[..n][1..] + [ks[n]] == ks[1..];
  }

  /** The state before the overflowing insert: the first `capacity` keys, each with its own handle. */
  lemma FilledToCapacity<K, H>(capacity: Int32, ks: seq<K>, hs: seq<H>)
    requires 1 <= capacity
    requires |ks| == |hs| == capacity + 1
    requires NoDuplicates(ks)
    ensures Valid(Empty<K, H>(capacity))
    ensures var full := RequestAll(Empty<K, H>(capacity), ks[..capacity], hs[..capacity]);
      && full.order == ks[..capacity]
      && full.closed == []
      && |full.entries| == capacity
      && ks[capacity] !in full.entries
      && ks[0] in full.entries && full.entries[ks[0]] == hs[0]
  {
    var n := capacity;
    PrefixOfDistinct(ks, n);
    var full := FillFromEmpty(capacity, ks[..n], hs[..n]);
    ChainKeysAreMapKeys(full);
    ExtendMapsEachKey(map[], ks[..n], hs[..n], 0);
  }

  /** Distinct keys that fit, requested from an empty cache, line up in request order. */
  lemma FillFromEmpty<K, H>(capacity: Int32, ks: seq<K>, hs: seq<H>) returns (full: Cache<K, H>)
    requires 1 <= capacity
    requires |ks| == |hs| <= capacity
    requires NoDuplicates(ks)
    ensures Valid(Empty<K, H>(capacity))
    ensures full == RequestAll(Empty<K, H>(capacity), ks, hs)
    ensures full == Cache(capacity, ks, Extend(map[], ks, hs), [])
  {
    var e := Empty<K, H>(capacity);
    assert e.order + ks == ks;
    assert e == Cache(capacity, [], map[], []);
    full := RequestAll(e, ks, hs);
    FillUpToCapacity(e, ks, hs);
  }

  /**
   * The worked example of a capacity-2 cache: insert A and B, look up A,
   * insert C. B is evicted and its handle closed; A and C remain.
   */
  lemma CapacityTwoScenario<K, H>(a: K, b: K, c: K, ha: H, hb: H, hc: H)
    requires a != b && b != c && a != c
    ensures var s0 := Empty<K, H>(2);
      && Valid(s0)
      && var s1 := Put(s0, a, ha);
      && b !in s1.entries
      && var s2 := Put(s1, b, hb);
      && s2.order == [a, b]
      && var l := Get(s2, a);
      && l.handle == Some(ha)
      && l.cache.order == [b, a]
      && c !in l.cache.entries
      && var s3 := Put(l.cache, c, hc);
      && s3.order == [a, c]
      && s3.entries == map[a := ha, c := hc]
      && s3.closed == [hb]
  {
    var s0 := Empty<K, H>(2);
    var s1 := Put(s0, a, ha);
    assert s1 == Cache(2, [a], map[a := ha], []);
    var s2 := Put(s1, b, hb);
    assert s2 == Cache(2, [a, b], map[a := ha, b := hb], []);
    var l := Get(s2, a);
    assert Without([a, b], a) == [b] by {
      assert [a, b][1..] == [b];
      WithoutAbsent([b], a);
    }
    assert l.cache == Cache(2, [b, a], map[a := ha, b := hb], []);
    var s3 := Put(l.cache, c, hc);
    assert [b, a][1..] + [c] == [a, c];
    assert map[a := ha, b := hb][c := hc] - {b} == map[a := ha, c := hc];
  }

  /**
   * Keys with the same SQL text but different type codes occupy separate
   * slots: both stay cached and each lookup returns its own handle.
   */
  lemma DifferentTypeCodesOccupySeparateSlots<H>(capacity: Int32, sql: SqlText, agk: Int32, h1: H, h2: H)
    requires 2 <= capacity
    ensures var k1 := Prepared(PsSql(sql));
      && var k2 := Prepared(PsAutoKeys(sql, agk));
      && Valid(Empty<CacheKey, H>(capacity))
      && k2 !in Put(Empty<CacheKey, H>(capacity), k1, h1).entries
      && var s := Put(Put(Empty<CacheKey, H>(capacity), k1, h1), k2, h2);
      && |s.entries| == 2
      && Get(s, k1).handle == Some(h1)
      && Get(s, k2).handle == Some(h2)
  {
    SameSqlDifferentTypeNeverEqual(Prepared(PsSql(sql)), Prepared(PsAutoKeys(sql, agk)));
    KeyEqualsIsValueEquality(Prepared(PsSql(sql)), Prepared(PsAutoKeys(sql, agk)));
  }
}
