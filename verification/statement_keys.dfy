/**
 * The cache keys `StatementCachePsKey` (type codes 1..6, keys of prepared
 * statements) and `StatementCacheCsKey` (type codes 7..9, keys of callable
 * statements). Each Java constructor becomes one datatype constructor; the
 * type code, the type-dispatched `equals` and the precomputed `hashCode`
 * are functions over them.
 */
module StatementKeys {
  import opened Wrappers
  import opened JavaInt

  /** A Java `String` that is never `null` (a `null` SQL text makes the Java constructors throw). */
  type SqlText = string

  /** `String.hashCode`, left uninterpreted: every hash lemma below holds for any such function. */
  type StringHash = string -> Int32

  /** One key per `StatementCachePsKey` constructor; a column array may be `null` (`None`). */
  datatype PsKey =
    | PsSql(sql: SqlText)                                                    // TYPE1
    | PsAutoKeys(sql: SqlText, autoGeneratedKeys: Int32)                     // TYPE2
    | PsColumnIndexes(sql: SqlText, columnIndexes: Option<seq<Int32>>)       // TYPE3
    | PsColumnNames(sql: SqlText, columnNames: Option<seq<Option<string>>>)  // TYPE4
    | PsScroll(sql: SqlText, resultSetType: Int32, resultSetConcurrency: Int32)  // TYPE5
    | PsScrollHold(sql: SqlText, resultSetType: Int32, resultSetConcurrency: Int32,
                   resultSetHoldability: Int32)                              // TYPE6

  /** One key per `StatementCacheCsKey` constructor. */
  datatype CsKey =
    | CsSql(sql: SqlText)                                                    // TYPE7
    | CsScroll(sql: SqlText, resultSetType: Int32, resultSetConcurrency: Int32)  // TYPE8
    | CsScrollHold(sql: SqlText, resultSetType: Int32, resultSetConcurrency: Int32,
                   resultSetHoldability: Int32)                              // TYPE9

  /** The `Object` keys of the statement cache's map: a key of either class. */
  datatype CacheKey = Prepared(ps: PsKey) | Callable(cs: CsKey)

  /** The `type` field each constructor stores. */
  function PsTypeCode(k: PsKey): (t: int)
    ensures 1 <= t <= 6
  {
    match k
    case PsSql(_) => 1
    case PsAutoKeys(_, _) => 2
    case PsColumnIndexes(_, _) => 3
    case PsColumnNames(_, _) => 4
    case PsScroll(_, _, _) => 5
    case PsScrollHold(_, _, _, _) => 6
  }

  function CsTypeCode(k: CsKey): (t: int)
    ensures 7 <= t <= 9
  {
    match k
    case CsSql(_) => 7
    case CsScroll(_, _, _) => 8
    case CsScrollHold(_, _, _, _) => 9
  }

  function TypeCode(k: CacheKey): (t: int)
    ensures 1 <= t <= 9
    ensures k.Prepared? <==> t <= 6
  {
    match k
    case Prepared(p) => PsTypeCode(p)
    case Callable(c) => CsTypeCode(c)
  }

  // ---------------------------------------------------------------------
  // java.util.Arrays helpers used by the keys
  // ---------------------------------------------------------------------

  /** Element-by-element comparison of two sequences, as `Arrays.equals` does on non-null arrays. */
  function ElementsEqual<T(==)>(a: seq<T>, b: seq<T>): (r: bool)
    ensures r <==> a == b
    decreases |a|
  {
    if |a| != |b| then false
    else if |a| == 0 then true
    else
      assert a == [a[0]] + a[1..] && b == [b[0]] + b[1..];
      a[0] == b[0] && ElementsEqual(a[1..], b[1..])
  }

  /** `Arrays.equals`: two `null` arrays are equal, a `null` and a non-null array are not. */
  function ArraysEquals<T(==)>(a: Option<seq<T>>, b: Option<seq<T>>): (r: bool)
    ensures r <==> a == b
  {
    match (a, b)
    case (None, None) => true
    case (Some(x), Some(y)) => ElementsEqual(x, y)
    case _ => false
  }

  /**
   * The running `result` of `Arrays.hashCode` after the elements of `s`:
   * start at 1, then `31 * result + hash(e)` in `int` arithmetic. It is the
   * polynomial with leading coefficient 1 over the element hashes (31^n
   * plus the sum of `hash(s[i]) * 31^(n - 1 - i)`), truncated once to 32 bits.
   */
  function ElementsHash<T>(s: seq<T>, hash: T -> Int32): (r: Int32)
    ensures r == Wrap(Horner(WithLeadingOne(s, hash)))
    decreases |s|
  {
    if |s| == 0 then
      assert WithLeadingOne(s, hash)[..0] == [];
      1
    else
      var prev := ElementsHash(s[..|s| - 1], hash);
      ElementsHashStep(s, hash, prev);
      Combine31(prev, hash(s[|s| - 1]))
  }

  /** One more element extends the truncated polynomial by one `int` step. */
  lemma ElementsHashStep<T>(s: seq<T>, hash: T -> Int32, prev: Int32)
    requires |s| > 0
    requires prev == Wrap(Horner(WithLeadingOne(s[..|s| - 1], hash)))
    ensures Combine31(prev, hash(s[|s| - 1])) == Wrap(Horner(WithLeadingOne(s, hash)))
  {
    LeadingOnePrefix(s, hash);
    Combine31OfTruncated(Horner(WithLeadingOne(s[..|s| - 1], hash)), hash(s[|s| - 1]));
  }

  /** `Arrays.hashCode`: 0 for a `null` array, else the truncated polynomial of `ElementsHash`. */
  function ArraysHash<T>(a: Option<seq<T>>, hash: T -> Int32): (r: Int32)
    ensures a.None? ==> r == 0
    ensures a.Some? ==> r == Wrap(Horner(WithLeadingOne(a.value, hash)))
  {
    match a
    case None => 0
    case Some(s) => ElementsHash(s, hash)
  }

  /** `Object.hashCode` of a `String[]` element: 0 for `null`. */
  function NameHash(sh: StringHash, e: Option<string>): Int32
  {
    match e
    case None => 0
    case Some(s) => sh(s)
  }

  // ---------------------------------------------------------------------
  // hashCode, as each constructor precomputes it
  // ---------------------------------------------------------------------

  /**
   * The `hashCode` a `StatementCachePsKey` constructor stores: its field
   * hashes combined with multiplier 31 at every `int` step, which is the
   * polynomial of those hashes truncated once to 32 bits.
   */
  function PsHash(k: PsKey, sh: StringHash): (r: Int32)
    ensures r == Wrap(Horner(HashFields(Prepared(k), sh)))
  {
    match k
    case PsSql(sql) =>
      OneFieldHash(sh(sql));
      sh(sql)
    case PsAutoKeys(sql, agk) =>
      TwoFieldHash(agk, sh(sql));
      Combine31(agk, sh(sql))
    case PsColumnIndexes(sql, ci) =>
      TwoFieldHash(ArraysHash(ci, (x: Int32) => x), sh(sql));
      Combine31(ArraysHash(ci, (x: Int32) => x), sh(sql))
    case PsColumnNames(sql, cn) =>
      TwoFieldHash(ArraysHash(cn, e => NameHash(sh, e)), sh(sql));
      Combine31(ArraysHash(cn, e => NameHash(sh, e)), sh(sql))
    case PsScroll(sql, t, c) =>
      ThreeFieldHash(t, c, sh(sql));
      Combine31(Combine31(t, c), sh(sql))
    case PsScrollHold(sql, t, c, h) =>
      FourFieldHash(t, c, h, sh(sql));
      Combine31(Combine31(Combine31(t, c), h), sh(sql))
  }

  /** The `hashCode` a `StatementCacheCsKey` constructor stores. */
  function CsHash(k: CsKey, sh: StringHash): (r: Int32)
    ensures r == Wrap(Horner(HashFields(Callable(k), sh)))
  {
    match k
    case CsSql(sql) =>
      OneFieldHash(sh(sql));
      sh(sql)
    case CsScroll(sql, t, c) =>
      ThreeFieldHash(t, c, sh(sql));
      Combine31(Combine31(t, c), sh(sql))
    case CsScrollHold(sql, t, c, h) =>
      FourFieldHash(t, c, h, sh(sql));
      Combine31(Combine31(Combine31(t, c), h), sh(sql))
  }

  /**
   * `hashCode()` of a cache key: the value its constructor stored, which is
   * the key's field hashes as a polynomial in 31, truncated once to 32 bits.
   */
  function HashCode(k: CacheKey, sh: StringHash): (r: Int32)
    ensures r == Wrap(Horner(HashFields(k, sh)))
  {
    match k
    case Prepared(p) => PsHash(p, sh)
    case Callable(c) => CsHash(c, sh)
  }

  /**
   * The unbounded value of combining the hashes `fs` with multiplier 31,
   * first to last, from 0: the sum of `fs[i] * 31^(|fs| - 1 - i)`.
   */
  function Horner(fs: seq<int>): int
    decreases |fs|
  {
    if |fs| == 0 then 0 else 31 * Horner(fs[..|fs| - 1]) + fs[|fs| - 1]
  }

  /** The field hashes a key's constructor combines, in the order it combines them. */
  function HashFields(k: CacheKey, sh: StringHash): seq<int>
  {
    match k
    case Prepared(PsSql(sql)) => [sh(sql)]
    case Prepared(PsAutoKeys(sql, agk)) => [agk, sh(sql)]
    case Prepared(PsColumnIndexes(sql, ci)) => [ArraysHash(ci, (x: Int32) => x), sh(sql)]
    case Prepared(PsColumnNames(sql, cn)) => [ArraysHash(cn, e => NameHash(sh, e)), sh(sql)]
    case Prepared(PsScroll(sql, t, c)) => [t, c, sh(sql)]
    case Prepared(PsScrollHold(sql, t, c, h)) => [t, c, h, sh(sql)]
    case Callable(CsSql(sql)) => [sh(sql)]
    case Callable(CsScroll(sql, t, c)) => [t, c, sh(sql)]
    case Callable(CsScrollHold(sql, t, c, h)) => [t, c, h, sh(sql)]
  }

  lemma OneFieldHash(a: Int32)
    ensures a == Wrap(Horner([a]))
  {
    assert [a][..0] == [];
  }

  lemma TwoFieldHash(a: Int32, b: Int32)
    ensures Combine31(a, b) == Wrap(Horner([a, b]))
  {
    assert [a, b][..1] == [a];
    OneFieldHash(a);
  }

  lemma ThreeFieldHash(a: Int32, b: Int32, c: Int32)
    ensures Combine31(Combine31(a, b), c) == Wrap(Horner([a, b, c]))
  {
    assert [a, b, c][..2] == [a, b];
    TwoFieldHash(a, b);
    Combine31OfTruncated(Horner([a, b]), c);
  }

  lemma FourFieldHash(a: Int32, b: Int32, c: Int32, d: Int32)
    ensures Combine31(Combine31(Combine31(a, b), c), d) == Wrap(Horner([a, b, c, d]))
  {
    assert [a, b, c, d][..3] == [a, b, c];
    ThreeFieldHash(a, b, c);
    Combine31OfTruncated(Horner([a, b, c]), d);
  }

  /** The coefficients `Arrays.hashCode` uses: 1, then the hash of each element. */
  function WithLeadingOne<T>(s: seq<T>, hash: T -> Int32): (fs: seq<int>)
    ensures |fs| == |s| + 1 && fs[0] == 1
    ensures forall i :: 0 <= i < |s| ==> fs[i + 1] == hash(s[i])
  {
    [1] + seq(|s|, i requires 0 <= i < |s| => hash(s[i]) as int)
  }

  lemma LeadingOnePrefix<T>(s: seq<T>, hash: T -> Int32)
    requires |s| > 0
    ensures var fs := WithLeadingOne(s, hash);
      && fs[..|fs| - 1] == WithLeadingOne(s[..|s| - 1], hash)
      && fs[|fs| - 1] == hash(s[|s| - 1])
  {
    var fs := WithLeadingOne(s, hash);
    var gs := WithLeadingOne(s[..|s| - 1], hash);
    assert forall i :: 0 <= i < |gs| ==> fs[i] == gs[i] by {
      forall i | 0 <= i < |gs| ensures fs[i] == gs[i] {
        if i > 0 {
          assert gs[i] == hash(s[..|s| - 1][i - 1]);
        }
      }
    }
  }

  // ---------------------------------------------------------------------
  // equals
  // ---------------------------------------------------------------------

  /**
   * `StatementCachePsKey.equals` on another `StatementCachePsKey`: different
   * type codes are unequal; otherwise the fields of that type code are
   * compared, scalars by value and column arrays with `Arrays.equals`.
   */
  function PsEquals(a: PsKey, b: PsKey): (r: bool)
    ensures r ==> PsTypeCode(a) == PsTypeCode(b) && a.sql == b.sql
    ensures r <==> a == b
  {
    if PsTypeCode(a) != PsTypeCode(b) then false
    else
      match a
      case PsSql(sql) => sql == b.sql
      case PsAutoKeys(sql, agk) => agk == b.autoGeneratedKeys && sql == b.sql
      case PsColumnIndexes(sql, ci) => ArraysEquals(ci, b.columnIndexes) && sql == b.sql
      case PsColumnNames(sql, cn) => ArraysEquals(cn, b.columnNames) && sql == b.sql
      case PsScroll(sql, t, c) =>
        t == b.resultSetType && c == b.resultSetConcurrency && sql == b.sql
      case PsScrollHold(sql, t, c, h) =>
        t == b.resultSetType && c == b.resultSetConcurrency
        && h == b.resultSetHoldability && sql == b.sql
  }

  /** `StatementCacheCsKey.equals` on another `StatementCacheCsKey`. */
  function CsEquals(a: CsKey, b: CsKey): (r: bool)
    ensures r ==> CsTypeCode(a) == CsTypeCode(b) && a.sql == b.sql
    ensures r <==> a == b
  {
    if CsTypeCode(a) != CsTypeCode(b) then false
    else
      match a
      case CsSql(sql) => sql == b.sql
      case CsScroll(sql, t, c) =>
        t == b.resultSetType && c == b.resultSetConcurrency && sql == b.sql
      case CsScrollHold(sql, t, c, h) =>
        t == b.resultSetType && c == b.resultSetConcurrency
        && h == b.resultSetHoldability && sql == b.sql
  }

  /** `a.equals(b)`: the `instanceof` test fails across the two key classes. */
  function KeyEquals(a: CacheKey, b: CacheKey): (r: bool)
    ensures TypeCode(a) != TypeCode(b) ==> !r
    ensures a.Prepared? != b.Prepared? ==> !r
  {
    match (a, b)
    case (Prepared(x), Prepared(y)) => PsEquals(x, y)
    case (Callable(x), Callable(y)) => CsEquals(x, y)
    case _ => false
  }

  // ---------------------------------------------------------------------
  // Properties
  // ---------------------------------------------------------------------

  /**
   * Java equality of keys is exactly equality of the datatype values: the
   * type code and every field of that type code, arrays by content. This is
   * what lets the cache use the key datatype as the key of a Dafny `map`.
   */
  lemma KeyEqualsIsValueEquality(a: CacheKey, b: CacheKey)
    ensures KeyEquals(a, b) <==> a == b
  {
  }

  /** `equals` is an equivalence relation on keys. */
  lemma KeyEqualsIsEquivalence(a: CacheKey, b: CacheKey, c: CacheKey)
    ensures KeyEquals(a, a)
    ensures KeyEquals(a, b) <==> KeyEquals(b, a)
    ensures KeyEquals(a, b) && KeyEquals(b, c) ==> KeyEquals(a, c)
  {
    KeyEqualsIsValueEquality(a, a);
    KeyEqualsIsValueEquality(a, b);
    KeyEqualsIsValueEquality(b, a);
    KeyEqualsIsValueEquality(b, c);
    KeyEqualsIsValueEquality(a, c);
  }

  /** `hashCode` is consistent with `equals`, whatever `String.hashCode` is. */
  lemma EqualKeysHaveEqualHashes(a: CacheKey, b: CacheKey, sh: StringHash)
    requires KeyEquals(a, b)
    ensures HashCode(a, sh) == HashCode(b, sh)
  {
    KeyEqualsIsValueEquality(a, b);
  }

  /** Two keys built from the same SQL text by different constructors are never equal. */
  lemma SameSqlDifferentTypeNeverEqual(a: CacheKey, b: CacheKey)
    requires KeySql(a) == KeySql(b)
    requires TypeCode(a) != TypeCode(b)
    ensures !KeyEquals(a, b) && !KeyEquals(b, a)
  {
  }

  /** A prepared-statement key never equals a callable-statement key, in either direction. */
  lemma PsNeverEqualsCs(p: PsKey, c: CsKey)
    ensures !KeyEquals(Prepared(p), Callable(c))
    ensures !KeyEquals(Callable(c), Prepared(p))
  {
  }

  /** Column arrays are compared by content: two equal-valued arrays give equal keys and equal hashes. */
  lemma ColumnArraysComparedByContent(sql: SqlText, x: seq<Option<string>>, y: seq<Option<string>>, sh: StringHash)
    requires |x| == |y|
    requires forall i :: 0 <= i < |x| ==> x[i] == y[i]
    ensures KeyEquals(Prepared(PsColumnNames(sql, Some(x))), Prepared(PsColumnNames(sql, Some(y))))
    ensures HashCode(Prepared(PsColumnNames(sql, Some(x))), sh)
         == HashCode(Prepared(PsColumnNames(sql, Some(y))), sh)
  {
    assert x == y;
  }

  /** The SQL text every key carries. */
  function KeySql(k: CacheKey): SqlText
  {
    match k
    case Prepared(p) => p.sql
    case Callable(c) => c.sql
  }
}
