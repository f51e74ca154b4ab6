/**
 * The pure layer under ExpandableHashMap: a table is a sequence of buckets,
 * each bucket a sequence of (key, value) pairs (separate chaining).  The class
 * in module ExpandableHashMaps keeps such a table in a field; the functions
 * here say what its loops compute, and the lemmas prove what rehashing keeps.
 */
module BucketTables {

  datatype Option<T> = None | Some(value: T)

  /** The optional view of a map entry: what find reports for a key. */
  function Get<K, V>(m: map<K, V>, k: K): Option<V>
  {
    if k in m then Some(m[k]) else None
  }

  type Bucket<K, V> = seq<(K, V)>
  type Table<K, V> = seq<Bucket<K, V>>

  /** getBucket: the bucket a key belongs in when the table has n buckets. */
  function BucketIndex<K>(hash: K -> nat, k: K, n: nat): (i: nat)
    requires n > 0
    ensures i < n
  {
    hash(k) % n
  }

  /** The value of the first pair of b whose key is k, as the find loop scans it. */
  function FindIn<K(==), V>(b: Bucket<K, V>, k: K): (r: Option<V>)
    ensures r.None? <==> forall i :: 0 <= i < |b| ==> b[i].0 != k
    ensures r.Some? ==> (k, r.value) in b
  {
    if |b| == 0 then None
    else if b[0].0 == k then Some(b[0].1)
    else FindIn(b[1..], k)
  }

  /** The value stored for k in table t, looked up in k's own bucket. */
  function Lookup<K(==), V>(t: Table<K, V>, hash: K -> nat, k: K): Option<V>
    requires |t| > 0
  {
    FindIn(t[BucketIndex(hash, k, |t|)], k)
  }

  /** Every pair sits in the bucket its key hashes to. */
  ghost predicate Placed<K, V>(t: Table<K, V>, hash: K -> nat)
  {
    forall i, j :: 0 <= i < |t| && 0 <= j < |t[i]| ==> BucketIndex(hash, t[i][j].0, |t|) == i
  }

  /** No two pairs of b share a key. */
  ghost predicate DistinctKeys<K, V>(b: seq<(K, V)>)
  {
    forall i, j :: 0 <= i < j < |b| ==> b[i].0 != b[j].0
  }

  ghost predicate AllDistinct<K, V>(t: Table<K, V>)
  {
    forall i :: 0 <= i < |t| ==> DistinctKeys(t[i])
  }

  /** The number of stored pairs. */
  function Count<K, V>(t: Table<K, V>): nat
  {
    if |t| == 0 then 0 else Count(t[..|t| - 1]) + |t[|t| - 1]|
  }

  /** All pairs, bucket after bucket, each bucket in its own order. */
  function Entries<K, V>(t: Table<K, V>): seq<(K, V)>
  {
    if |t| == 0 then [] else Entries(t[..|t| - 1]) + t[|t| - 1]
  }

  /** n empty buckets. */
  function EmptyTable<K, V>(n: nat): (t: Table<K, V>)
    ensures |t| == n && forall i :: 0 <= i < n ==> t[i] == []
  {
    seq(n, _ => [])
  }

  /** push_back of pair x onto the bucket its key hashes to. */
  function Push<K, V>(t: Table<K, V>, hash: K -> nat, x: (K, V)): (r: Table<K, V>)
    requires |t| > 0
    ensures |r| == |t|
  {
    var i := BucketIndex(hash, x.0, |t|);
    t[i := t[i] + [x]]
  }

  /** Push every pair of es, first to last. */
  function PushAll<K, V>(t: Table<K, V>, hash: K -> nat, es: seq<(K, V)>): (r: Table<K, V>)
    requires |t| > 0
    ensures |r| == |t|
  {
    if |es| == 0 then t else Push(PushAll(t, hash, es[..|es| - 1]), hash, es[|es| - 1])
  }

  /** Pushing es then x is pushing es + [x]. */
  lemma PushAllSnoc<K, V>(t: Table<K, V>, hash: K -> nat, es: seq<(K, V)>, x: (K, V))
    requires |t| > 0
    ensures PushAll(t, hash, es + [x]) == Push(PushAll(t, hash, es), hash, x)
  {
    assert (es + [x])[..|es|] == es;
  }

  /** What expand builds: n fresh buckets, then every old pair pushed in table order. */
  function Rehash<K, V>(t: Table<K, V>, hash: K -> nat, n: nat): Table<K, V>
    requires n > 0
  {
    PushAll(EmptyTable(n), hash, Entries(t))
  }

  /** The bucket after associate's overwrite loop: every pair with key k gets value v. */
  function Overwrite<K(==), V>(b: Bucket<K, V>, k: K, v: V): (r: Bucket<K, V>)
    ensures |r| == |b|
  {
    seq(|b|, i requires 0 <= i < |b| => if b[i].0 == k then (k, v) else b[i])
  }

  // ---------------------------------------------------------------------------
  // Lemmas about a single bucket

  /** Scanning a + b finds what a holds, else what b holds. */
  lemma {:induction false} FindInAppend<K, V>(a: seq<(K, V)>, b: seq<(K, V)>, k: K)
    ensures FindIn(a + b, k) == if FindIn(a, k).Some? then FindIn(a, k) else FindIn(b, k)
  {
    if |a| == 0 {
      assert a + b == b;
    } else {
      assert (a + b)[0] == a[0];
      assert (a + b)[1..] == a[1..] + b;
      FindInAppend(a[1..], b, k);
    }
  }

  /** With distinct keys, the value found for k is the one stored with k. */
  lemma FindInDistinct<K, V>(b: seq<(K, V)>, k: K, v: V)
    requires DistinctKeys(b)
    ensures FindIn(b, k) == Some(v) <==> (k, v) in b
  {
    if (k, v) in b {
      var r := FindIn(b, k);
      var i :| 0 <= i < |b| && b[i] == (k, v);
      var j :| 0 <= j < |b| && b[j] == (k, r.value);
      assert i == j;
    }
  }

  /** After the overwrite loop, k maps to v if it was present; every other key is untouched. */
  lemma {:induction false} FindInOverwrite<K, V>(b: Bucket<K, V>, k: K, v: V, k': K)
    ensures FindIn(Overwrite(b, k, v), k') ==
      if k' == k then (if FindIn(b, k).Some? then Some(v) else None) else FindIn(b, k')
  {
    if |b| > 0 {
      assert Overwrite(b, k, v)[1..] == Overwrite(b[1..], k, v);
      FindInOverwrite(b[1..], k, v, k');
    }
  }

  /** The overwrite loop changes values only, never keys. */
  lemma OverwriteKeys<K, V>(b: Bucket<K, V>, k: K, v: V)
    ensures forall i :: 0 <= i < |b| ==> Overwrite(b, k, v)[i].0 == b[i].0
  {
  }

  // ---------------------------------------------------------------------------
  // Lemmas about whole tables

  /** Count is additive over a replaced bucket. */
  lemma {:induction false} CountUpdate<K, V>(t: Table<K, V>, i: nat, b: Bucket<K, V>)
    requires i < |t|
    ensures Count(t[i := b]) + |t[i]| == Count(t) + |b|
  {
    var n := |t| - 1;
    var u := t[i := b];
    if i == n {
      assert u[..n] == t[..n];
    } else {
      assert u[..n] == t[..n][i := b];
      CountUpdate(t[..n], i, b);
    }
  }

  /** The number of entries is the number of stored pairs. */
  lemma {:induction false} EntriesCount<K, V>(t: Table<K, V>)
    ensures |Entries(t)| == Count(t)
  {
    if |t| > 0 {
      EntriesCount(t[..|t| - 1]);
    }
  }

  /** A push adds one pair to the table. */
  lemma PushCount<K, V>(t: Table<K, V>, hash: K -> nat, x: (K, V))
    requires |t| > 0
    ensures Count(Push(t, hash, x)) == Count(t) + 1
  {
    var i := BucketIndex(hash, x.0, |t|);
    CountUpdate(t, i, t[i] + [x]);
  }

  /** A push keeps every pair in its own bucket. */
  lemma PushPlaced<K, V>(t: Table<K, V>, hash: K -> nat, x: (K, V))
    requires |t| > 0 && Placed(t, hash)
    ensures Placed(Push(t, hash, x), hash)
  {
  }

  /** A push makes x.0 visible (unless already present) and leaves every other key as it was. */
  lemma PushLookup<K, V>(t: Table<K, V>, hash: K -> nat, x: (K, V), k: K)
    requires |t| > 0
    ensures Lookup(Push(t, hash, x), hash, k) ==
      if Lookup(t, hash, k).Some? then Lookup(t, hash, k)
      else if x.0 == k then Some(x.1) else None
  {
    var i := BucketIndex(hash, x.0, |t|);
    if BucketIndex(hash, k, |t|) == i {
      FindInAppend(t[i], [x], k);
    }
  }

  /** Pushing es adds |es| pairs. */
  lemma {:induction false} PushAllCount<K, V>(t: Table<K, V>, hash: K -> nat, es: seq<(K, V)>)
    requires |t| > 0
    ensures Count(PushAll(t, hash, es)) == Count(t) + |es|
  {
    if |es| > 0 {
      PushAllCount(t, hash, es[..|es| - 1]);
      PushCount(PushAll(t, hash, es[..|es| - 1]), hash, es[|es| - 1]);
    }
  }

  /** Pushing keeps placement. */
  lemma {:induction false} PushAllPlaced<K, V>(t: Table<K, V>, hash: K -> nat, es: seq<(K, V)>)
    requires |t| > 0 && Placed(t, hash)
    ensures Placed(PushAll(t, hash, es), hash)
  {
    if |es| > 0 {
      PushAllPlaced(t, hash, es[..|es| - 1]);
      PushPlaced(PushAll(t, hash, es[..|es| - 1]), hash, es[|es| - 1]);
    }
  }

  /** After pushing es, a key keeps its old value, or else gets its first value in es. */
  lemma {:induction false} PushAllLookup<K, V>(t: Table<K, V>, hash: K -> nat, es: seq<(K, V)>, k: K)
    requires |t| > 0
    ensures Lookup(PushAll(t, hash, es), hash, k) ==
      if Lookup(t, hash, k).Some? then Lookup(t, hash, k) else FindIn(es, k)
  {
    if |es| > 0 {
      var init, x := es[..|es| - 1], es[|es| - 1];
      assert es == init + [x];
      PushAllLookup(t, hash, init, k);
      PushLookup(PushAll(t, hash, init), hash, x, k);
      FindInAppend(init, [x], k);
    }
  }

  /** Pushing pairs with distinct, new keys keeps every bucket free of duplicate keys. */
  lemma {:induction false} PushAllDistinct<K, V>(t: Table<K, V>, hash: K -> nat, es: seq<(K, V)>)
    requires |t| > 0 && AllDistinct(t) && DistinctKeys(es)
    requires forall i :: 0 <= i < |es| ==> Lookup(t, hash, es[i].0).None?
    ensures AllDistinct(PushAll(t, hash, es))
  {
    if |es| > 0 {
      var init: seq<(K, V)>, x: (K, V) := es[..|es| - 1], es[|es| - 1];
      PushAllDistinct(t, hash, init);
      var p: Table<K, V> := PushAll(t, hash, init);
      PushAllLookup(t, hash, init, x.0);
      assert FindIn(init, x.0).None?;
      var i := BucketIndex(hash, x.0, |p|);
      assert forall j :: 0 <= j < |p[i]| ==> p[i][j].0 != x.0;
    }
  }

  /** In a placed table, the entries before bucket m hold k only if k's bucket is before m. */
  lemma {:induction false} EntriesFind<K, V>(t: Table<K, V>, hash: K -> nat, m: nat, k: K)
    requires 0 < |t| && m <= |t| && Placed(t, hash)
    ensures FindIn(Entries(t[..m]), k) ==
      if BucketIndex(hash, k, |t|) < m then Lookup(t, hash, k) else None
  {
    if m > 0 {
      var p := t[..m];
      assert p[..m - 1] == t[..m - 1];
      assert p[m - 1] == t[m - 1];
      EntriesFind(t, hash, m - 1, k);
      FindInAppend(Entries(t[..m - 1]), t[m - 1], k);
      var last := t[m - 1];
      if BucketIndex(hash, k, |t|) != m - 1 {
        assert forall j :: 0 <= j < |last| ==> last[j].0 != k;
      }
    }
  }

  /** In a placed table whose buckets have distinct keys, no key appears twice among the entries. */
  lemma {:induction false} EntriesDistinct<K, V>(t: Table<K, V>, hash: K -> nat, m: nat)
    requires 0 < |t| && m <= |t| && Placed(t, hash) && AllDistinct(t)
    ensures DistinctKeys(Entries(t[..m]))
  {
    if m > 0 {
      var p := t[..m];
      assert p[..m - 1] == t[..m - 1];
      assert p[m - 1] == t[m - 1];
      EntriesDistinct(t, hash, m - 1);
      var a, b := Entries(t[..m - 1]), t[m - 1];
      forall i, j | 0 <= i < |a| && 0 <= j < |b|
        ensures a[i].0 != b[j].0
      {
        EntriesFind(t, hash, m - 1, b[j].0);
        assert BucketIndex(hash, b[j].0, |t|) == m - 1;
      }
      assert Entries(t[..m]) == a + b;
    }
  }

  lemma RehashDistinct<K, V>(t: Table<K, V>, hash: K -> nat, n: nat)
    requires 0 < |t| && 0 < n && Placed(t, hash) && AllDistinct(t)
    ensures AllDistinct(Rehash(t, hash, n))
  {
    var e: Table<K, V> := EmptyTable(n);
    assert t[..|t|] == t;
    EntriesDistinct(t, hash, |t|);
    PushAllDistinct(e, hash, Entries(t));
  }

  lemma RehashCount<K, V>(t: Table<K, V>, hash: K -> nat, n: nat)
    requires 0 < n
    ensures Count(Rehash(t, hash, n)) == Count(t)
  {
    var e: Table<K, V> := EmptyTable(n);
    PushAllCount(e, hash, Entries(t));
    EntriesCount(t);
    EmptyCount<K, V>(n);
  }

  lemma {:induction false} EmptyCount<K, V>(n: nat)
    ensures Count(EmptyTable<K, V>(n)) == 0
  {
    if n > 0 {
      assert EmptyTable<K, V>(n)[..n - 1] == EmptyTable(n - 1);
      EmptyCount<K, V>(n - 1);
    }
  }

  /**
   * Rehashing a well-formed table into n buckets keeps every association,
   * every placement and every count: nothing lost, nothing duplicated.
   */
  lemma RehashPreserves<K, V>(t: Table<K, V>, hash: K -> nat, n: nat)
    requires 0 < |t| && 0 < n && Placed(t, hash) && AllDistinct(t)
    ensures |Rehash(t, hash, n)| == n
    ensures Placed(Rehash(t, hash, n), hash)
    ensures AllDistinct(Rehash(t, hash, n))
    ensures Count(Rehash(t, hash, n)) == Count(t)
    ensures forall k :: Lookup(Rehash(t, hash, n), hash, k) == Lookup(t, hash, k)
  {
    var e: Table<K, V> := EmptyTable(n);
    var es := Entries(t);
    assert t[..|t|] == t;
    PushAllPlaced(e, hash, es);
    RehashDistinct(t, hash, n);
    RehashCount(t, hash, n);
    forall k
      ensures Lookup(Rehash(t, hash, n), hash, k) == Lookup(t, hash, k)
    {
      PushAllLookup(e, hash, es, k);
      EntriesFind(t, hash, |t|, k);
    }
  }

  /**
   * Table t, hashed with hash, stands for map m: every pair in its own
   * bucket, no key twice in a bucket, one pair per association, every key
   * of m found with its value, and no stored key outside m.
   */
  ghost predicate Represents<K, V>(t: Table<K, V>, hash: K -> nat, m: map<K, V>)
  {
    && |t| > 0
    && Placed(t, hash)
    && AllDistinct(t)
    && Count(t) == |m|
    && (forall k {:trigger Lookup(t, hash, k)} :: k in m ==> Lookup(t, hash, k) == Some(m[k]))
    && (forall i, j :: 0 <= i < |t| && 0 <= j < |t[i]| ==> t[i][j].0 in m)
  }

  /** In a represented table, looking a key up gives exactly the map's entry, or None. */
  lemma RepresentsLookup<K, V>(t: Table<K, V>, hash: K -> nat, m: map<K, V>, k: K)
    requires Represents(t, hash, m)
    ensures Lookup(t, hash, k) == Get(m, k)
  {
  }

  /** In a represented table no two stored pairs share a key, whichever buckets they sit in. */
  lemma KeysUnique<K, V>(t: Table<K, V>, hash: K -> nat, m: map<K, V>, i1: nat, j1: nat, i2: nat, j2: nat)
    requires Represents(t, hash, m)
    requires i1 < |t| && j1 < |t[i1]| && i2 < |t| && j2 < |t[i2]|
    requires t[i1][j1].0 == t[i2][j2].0
    ensures i1 == i2 && j1 == j2
  {
  }

  /** Pushing a pair with a new key makes the table stand for the map extended by it. */
  lemma InsertRepresents<K, V>(t: Table<K, V>, hash: K -> nat, m: map<K, V>, k: K, v: V)
    requires Represents(t, hash, m) && k !in m
    ensures Represents(Push(t, hash, (k, v)), hash, m[k := v])
  {
    var t': Table<K, V> := Push(t, hash, (k, v));
    var m' := m[k := v];
    PushPlaced(t, hash, (k, v));
    PushCount(t, hash, (k, v));
    var i := BucketIndex(hash, k, |t|);
    assert t' == t[i := t[i] + [(k, v)]];
    RepresentsLookup(t, hash, m, k);
    var b := t[i];
    assert forall j :: 0 <= j < |b| ==> b[j].0 != k;
    assert DistinctKeys(b + [(k, v)]);
    assert AllDistinct(t');
    forall k' | k' in m' ensures Lookup(t', hash, k') == Some(m'[k']) {
      PushLookup(t, hash, (k, v), k');
    }
    forall i', j | 0 <= i' < |t'| && 0 <= j < |t'[i']| ensures t'[i'][j].0 in m' {
      if i' == i && j == |b| {
        assert t'[i'][j] == (k, v);
      } else {
        assert t'[i'][j] == t[i'][j];
      }
    }
  }

  /** Overwriting the value of a present key makes the table stand for the updated map. */
  lemma OverwriteRepresents<K, V>(t: Table<K, V>, hash: K -> nat, m: map<K, V>, k: K, v: V)
    requires Represents(t, hash, m) && k in m
    ensures var i := BucketIndex(hash, k, |t|);
      Represents(t[i := Overwrite(t[i], k, v)], hash, m[k := v])
  {
    var i := BucketIndex(hash, k, |t|);
    var t': Table<K, V> := t[i := Overwrite(t[i], k, v)];
    OverwriteKeys(t[i], k, v);
    CountUpdate(t, i, Overwrite(t[i], k, v));
    OverwriteShape(t, hash, m, k, v);
    forall k' | k' in m[k := v] ensures Lookup(t', hash, k') == Some(m[k := v][k']) {
      if k' != k {
        RepresentsLookup(t, hash, m, k');
      }
      if BucketIndex(hash, k', |t|) == i {
        FindInOverwrite(t[i], k, v, k');
      }
      if k' == k {
        RepresentsLookup(t, hash, m, k);
      }
    }
  }

  /** Overwriting leaves every key where it was: placement, distinctness and the key set carry over. */
  lemma OverwriteShape<K, V>(t: Table<K, V>, hash: K -> nat, m: map<K, V>, k: K, v: V)
    requires Represents(t, hash, m) && k in m
    ensures var i := BucketIndex(hash, k, |t|);
      var t' := t[i := Overwrite(t[i], k, v)];
      && Placed(t', hash) && AllDistinct(t')
      && (forall i', j :: 0 <= i' < |t'| && 0 <= j < |t'[i']| ==> t'[i'][j].0 in m[k := v])
  {
    var i := BucketIndex(hash, k, |t|);
    OverwriteKeys(t[i], k, v);
  }

  /** Rehashing into any positive number of buckets still stands for the same map. */
  lemma RehashRepresents<K, V>(t: Table<K, V>, hash: K -> nat, m: map<K, V>, n: nat)
    requires Represents(t, hash, m) && n > 0
    ensures Represents(Rehash(t, hash, n), hash, m)
    ensures |Rehash(t, hash, n)| == n
  {
    var r: Table<K, V> := Rehash(t, hash, n);
    RehashPreserves(t, hash, n);
    forall i, j | 0 <= i < |r| && 0 <= j < |r[i]| ensures r[i][j].0 in m {
      var k := r[i][j].0;
      assert Lookup(r, hash, k).Some?;
      RepresentsLookup(t, hash, m, k);
    }
  }
}
