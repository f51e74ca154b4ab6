/**
 * ExpandableHashMap: a separate-chaining hash table that doubles its bucket
 * count whenever associations / buckets exceeds its maximum load factor.
 *
 * The table (`m_map`, a vector of lists) is the field `buckets`, a sequence
 * of buckets that the methods reassign; `m_nBuckets` and `m_nAssociations`
 * are the two counters.  The ghost field `Contents` is the map the table
 * stands for, tied to the buckets by Valid().
 */
module ExpandableHashMaps {
  import opened BucketTables

  /** m_nAssociations / m_nBuckets, computed in doubles by the source. */
  function LoadFactor(associations: nat, nBuckets: nat): real
    requires nBuckets > 0
  {
    (associations as real) / (nBuckets as real)
  }

  class ExpandableHashMap<K(==), V> {
    const hash: K -> nat
    const maxLoadFactor: real
    var buckets: Table<K, V>
    var nBuckets: nat
    var nAssociations: nat
    ghost var Contents: map<K, V>

    /** The structural invariant: placement, unique keys, counters and the abstract map agree. */
    ghost predicate WellFormed()
      reads this
    {
      TableInv(buckets, nBuckets, nAssociations, hash, Contents)
    }

    /** WellFormed, and the load factor stays within bounds whenever that is attainable. */
    ghost predicate Valid()
      reads this
    {
      && WellFormed()
      && (maxLoadFactor >= 1.0 / 8.0 ==> LoadFactor(nAssociations, nBuckets) <= maxLoadFactor)
    }

    /**
     * A new map has 8 empty buckets.  The source never initialises
     * m_nAssociations here; the model starts it at 0.
     */
    constructor (maximumLoadFactor: real, hash: K -> nat)
      ensures Valid()
      ensures this.hash == hash && maxLoadFactor == maximumLoadFactor
      ensures Contents == map[] && nBuckets == 8 && nAssociations == 0
      ensures forall i :: 0 <= i < |buckets| ==> buckets[i] == []
    {
      this.hash := hash;
      maxLoadFactor := maximumLoadFactor;
      nBuckets := 8;
      buckets := EmptyTable(8);
      nAssociations := 0;
      Contents := map[];
      EmptyCount<K, V>(8);
    }

    /** Discard every association and return to 8 empty buckets. */
    method Reset()
      modifies this
      ensures Valid()
      ensures Contents == map[] && nBuckets == 8 && nAssociations == 0
      ensures forall i :: 0 <= i < |buckets| ==> buckets[i] == []
    {
      buckets := EmptyTable(8);
      nAssociations := 0;
      nBuckets := 8;
      Contents := map[];
      EmptyCount<K, V>(8);
    }

    /** The number of associations. */
    function Size(): (n: nat)
      reads this
      requires Valid()
      ensures n == |Contents| && n == Count(buckets)
    {
      nAssociations
    }

    /** getBucket: the only bucket a pair with this key can sit in. */
    function GetBucket(key: K): (b: nat)
      reads this
      requires |buckets| > 0 && Placed(buckets, hash)
      ensures b < |buckets|
      ensures forall i, j :: 0 <= i < |buckets| && 0 <= j < |buckets[i]| && buckets[i][j].0 == key ==> i == b
    {
      BucketIndex(hash, key, |buckets|)
    }

    /** find: scan key's bucket; the value stored with key, or None. */
    method Find(key: K) returns (r: Option<V>)
      requires WellFormed()
      ensures r == Get(Contents, key)
      ensures r.Some? <==> key in Contents
    {
      var b := buckets[GetBucket(key)];
      RepresentsLookup(buckets, hash, Contents, key);
      var j := 0;
      while j < |b|
        invariant 0 <= j <= |b|
        invariant FindIn(b[j..], key) == FindIn(b, key)
      {
        if b[j].0 == key {
          return Some(b[j].1);
        }
        assert b[j..][1..] == b[j + 1..];
        j := j + 1;
      }
      return None;
    }

    /**
     * associate: overwrite the value of a present key in place, or append a
     * new pair to its bucket; then double the buckets if the load factor
     * went above the maximum.
     */
    method Associate(key: K, value: V)
      requires Valid()
      modifies this
      ensures Valid()
      ensures Contents == old(Contents)[key := value]
      ensures nAssociations == old(nAssociations) + (if key in old(Contents) then 0 else 1)
      ensures nBuckets ==
        if LoadFactor(nAssociations, old(nBuckets)) > maxLoadFactor then 2 * old(nBuckets) else old(nBuckets)
    {
      Store(key, value);
      if LoadFactor(nAssociations, nBuckets) > maxLoadFactor {
        ghost var n0 := nBuckets;
        Expand();
        if maxLoadFactor >= 1.0 / 8.0 {
          LoadAfterExpand(nAssociations, n0, maxLoadFactor);
        }
      }
    }

    /** The first half of associate: overwrite in place, or append to the key's bucket. */
    method Store(key: K, value: V)
      requires WellFormed()
      modifies this
      ensures WellFormed()
      ensures Contents == old(Contents)[key := value]
      ensures nAssociations == old(nAssociations) + (if key in old(Contents) then 0 else 1)
      ensures nBuckets == old(nBuckets)
    {
      var v := Find(key);
      var bNum := GetBucket(key);
      ghost var t0 := buckets;
      ghost var m0 := Contents;
      if v.None? {
        buckets := buckets[bNum := buckets[bNum] + [(key, value)]];
        nAssociations := nAssociations + 1;
        InsertKeepsInv(t0, buckets, nBuckets, nAssociations - 1, hash, m0, key, value);
      } else {
        var b := OverwriteBucket(buckets[bNum], key, value);
        buckets := buckets[bNum := b];
        OverwriteKeepsInv(t0, buckets, nBuckets, nAssociations, hash, m0, key, value);
      }
      Contents := Contents[key := value];
    }

    /** The scan of associate over one bucket: every pair with key gets the new value. */
    method OverwriteBucket(b0: Bucket<K, V>, key: K, value: V) returns (b: Bucket<K, V>)
      ensures b == Overwrite(b0, key, value)
      ensures |b| == |b0| && forall i :: 0 <= i < |b| ==> b[i] == (if b0[i].0 == key then (key, value) else b0[i])
    {
      b := b0;
      var j := 0;
      while j < |b|
        invariant 0 <= j <= |b| && |b| == |b0|
        invariant forall i :: 0 <= i < j ==> b[i] == Overwrite(b0, key, value)[i]
        invariant forall i :: j <= i < |b| ==> b[i] == b0[i]
      {
        if b[j].0 == key {
          b := b[j := (key, value)];
        }
        j := j + 1;
      }
    }

    /**
     * expand: double the bucket count and push every old pair, bucket by
     * bucket, into its bucket of the new table.
     */
    method Expand()
      requires WellFormed()
      modifies this
      ensures WellFormed()
      ensures Contents == old(Contents) && nAssociations == old(nAssociations)
      ensures nBuckets == 2 * old(nBuckets)
      ensures buckets == Rehash(old(buckets), hash, nBuckets)
    {
      var temp := buckets;
      ghost var n0 := nBuckets;
      buckets := Rebuild(temp, 2 * nBuckets);
      nBuckets := nBuckets * 2;
      ExpandKeepsInv(temp, buckets, n0, nBuckets, nAssociations, hash, Contents);
    }

    /**
     * The nested loop of expand: starting from n empty buckets, push every
     * pair of the old table, going through the old buckets in order.
     */
    method Rebuild(temp: Table<K, V>, n: nat) returns (table: Table<K, V>)
      requires n > 0
      ensures table == Rehash(temp, hash, n)
    {
      table := EmptyTable(n);
      ghost var e := table;
      var i := 0;
      while i < |temp|
        invariant 0 <= i <= |temp|
        invariant |table| == n
        invariant table == PushAll(e, hash, Entries(temp[..i]))
      {
        var bucket := temp[i];
        ghost var done := Entries(temp[..i]);
        var j := 0;
        assert done + bucket[..0] == done;
        while j < |bucket|
          invariant 0 <= j <= |bucket|
          invariant |table| == n
          invariant table == PushAll(e, hash, done + bucket[..j])
        {
          var x := bucket[j];
          var bNum := BucketIndex(hash, x.0, |table|);
          PushAllSnoc(e, hash, done + bucket[..j], x);
          assert done + bucket[..j + 1] == (done + bucket[..j]) + [x];
          table := table[bNum := table[bNum] + [x]];
          j := j + 1;
        }
        assert temp[..i + 1][..i] == temp[..i];
        assert bucket[..|bucket|] == bucket;
        assert Entries(temp[..i + 1]) == done + bucket;
        i := i + 1;
      }
      assert temp[..|temp|] == temp;
    }
  }

  /** The table invariant on plain values: the counters agree with the buckets, which represent m. */
  ghost predicate TableInv<K, V>(t: Table<K, V>, n: nat, a: nat, hash: K -> nat, m: map<K, V>)
  {
    && n == |t| && n >= 8
    && a == Count(t)
    && Represents(t, hash, m)
  }

  /** Rehashing into twice the buckets keeps the invariant with the same map and count. */
  lemma ExpandKeepsInv<K, V>(t: Table<K, V>, r: Table<K, V>, n: nat, n': nat, a: nat, hash: K -> nat, m: map<K, V>)
    requires TableInv(t, n, a, hash, m)
    requires n' == 2 * n && r == Rehash(t, hash, n')
    ensures TableInv(r, n', a, hash, m)
  {
    RehashRepresents(t, hash, m, n');
  }

  /** Appending a new key's pair to its bucket keeps the invariant, with one more association. */
  lemma InsertKeepsInv<K, V>(t: Table<K, V>, r: Table<K, V>, n: nat, a: nat, hash: K -> nat, m: map<K, V>, k: K, v: V)
    requires TableInv(t, n, a, hash, m) && k !in m
    requires r == Push(t, hash, (k, v))
    ensures TableInv(r, n, a + 1, hash, m[k := v])
  {
    InsertRepresents(t, hash, m, k, v);
  }

  /** Overwriting a present key's pair in its bucket keeps the invariant, with the same count. */
  lemma OverwriteKeepsInv<K, V>(t: Table<K, V>, r: Table<K, V>, n: nat, a: nat, hash: K -> nat, m: map<K, V>, k: K, v: V)
    requires TableInv(t, n, a, hash, m) && k in m
    requires r == t[BucketIndex(hash, k, |t|) := Overwrite(t[BucketIndex(hash, k, |t|)], k, v)]
    ensures TableInv(r, n, a, hash, m[k := v])
  {
    var i := BucketIndex(hash, k, |t|);
    OverwriteRepresents(t, hash, m, k, v);
    CountUpdate(t, i, Overwrite(t[i], k, v));
  }

  /**
   * One doubling restores the bound: if the load was within m before a
   * single insert and went above it, it is within m again on twice the
   * buckets, for any m >= 1/8 with at least 8 buckets.
   */
  lemma LoadAfterExpand(a: nat, n: nat, m: real)
    requires n >= 8 && m >= 1.0 / 8.0 && a >= 1
    requires LoadFactor(a - 1, n) <= m
    ensures LoadFactor(a, 2 * n) <= m
  {
    var nr := n as real;
    var x := (a - 1) as real;
    MulMono(x / nr, m, nr);
    assert x / nr * nr == x;
    assert x <= m * nr;
    MulMono(1.0 / 8.0, m, nr);
    assert 1.0 <= m * nr;
    assert m * (2.0 * nr) == 2.0 * (m * nr);
    assert (a as real) <= m * (2.0 * nr);
    DivBound(a as real, m, 2.0 * nr);
  }

  /** Multiplying both sides by a positive number keeps the order. */
  lemma MulMono(x: real, y: real, d: real)
    requires x <= y && d > 0.0
    ensures x * d <= y * d
  {
  }

  /** A quotient is bounded by y when the dividend is at most y times the positive divisor. */
  lemma DivBound(x: real, y: real, d: real)
    requires d > 0.0 && x <= y * d
    ensures x / d <= y
  {
    assert x / d * d == x;
    if x / d > y {
      MulMono(y, x / d, d);
    }
  }
}
