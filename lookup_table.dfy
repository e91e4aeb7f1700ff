/** The lookup table of listings 6.11 to 6.13: a fixed vector of buckets,
    each an association list guarded by its own shared mutex, and a key goes
    to bucket `hasher(key) % buckets.size()`.  The locks are not modelled;
    what is proved is that the buckets together behave as one map, because
    every entry sits in the bucket its key hashes to. */
module LookupTable {
  import opened AssocList

  /** All bucket lists one after the other, in bucket order. */
  function Concat<T>(lists: seq<seq<T>>): seq<T>
  {
    if lists == [] then [] else Concat(lists[..|lists| - 1]) + lists[|lists| - 1]
  }

  /** Every entry is in the bucket its key hashes to. */
  ghost predicate Partitioned<K, V>(lists: seq<seq<(K, V)>>, hasher: K -> nat)
  {
    forall b, e :: 0 <= b < |lists| && e in lists[b] ==> hasher(e.0) % |lists| == b
  }

  /** Two maps agree on key `k`: both lack it or both map it to one value. */
  ghost predicate AgreeAt<K, V>(m1: map<K, V>, m2: map<K, V>, k: K)
  {
    (k in m1 <==> k in m2) && (k in m1 ==> m1[k] == m2[k])
  }

  lemma MapExt<K, V>(m1: map<K, V>, m2: map<K, V>)
    requires forall k :: AgreeAt(m1, m2, k)
    ensures m1 == m2
  {
    forall k
      ensures k in m1 <==> k in m2
    {
      assert AgreeAt(m1, m2, k);
    }
    forall k | k in m1
      ensures m1[k] == m2[k]
    {
      assert AgreeAt(m1, m2, k);
    }
  }

  lemma {:induction false} ConcatOfEmpty<T>(lists: seq<seq<T>>)
    requires forall i :: 0 <= i < |lists| ==> lists[i] == []
    ensures Concat(lists) == []
  {
    if lists != [] {
      ConcatOfEmpty(lists[..|lists| - 1]);
    }
  }

  /** Over the first `n` buckets, a key is absent until its own bucket is
      reached, and from then on it is looked up exactly as in that bucket. */
  lemma {:induction false} OwnBucketPrefix<K, V>(lists: seq<seq<(K, V)>>, hasher: K -> nat, key: K, n: nat)
    requires Partitioned(lists, hasher) && 0 < |lists| && n <= |lists|
    ensures n <= hasher(key) % |lists| ==> key !in ToMap(Concat(lists[..n]))
    ensures n > hasher(key) % |lists| ==> AgreeAt(ToMap(Concat(lists[..n])), ToMap(lists[hasher(key) % |lists|]), key)
  {
    if n > 0 {
      OwnBucketPrefix(lists, hasher, key, n - 1);
      assert lists[..n][..n - 1] == lists[..n - 1];
      var before, last := Concat(lists[..n - 1]), lists[n - 1];
      assert Concat(lists[..n]) == before + last;
      ToMapConcat(before, last);
      if n - 1 != hasher(key) % |lists| {
        forall j | 0 <= j < |last|
          ensures last[j].0 != key
        {
          assert last[j] in lists[n - 1];
        }
        ToMapHasKey(last, key);
      }
    }
  }

  /** A key is found in the whole table exactly as in its own bucket, which
      is why `value_for` and the mutators need to look at one bucket only. */
  lemma OwnBucket<K, V>(lists: seq<seq<(K, V)>>, hasher: K -> nat, key: K)
    requires Partitioned(lists, hasher) && 0 < |lists|
    ensures AgreeAt(ToMap(Concat(lists)), ToMap(lists[hasher(key) % |lists|]), key)
  {
    OwnBucketPrefix(lists, hasher, key, |lists|);
    assert lists[..|lists|] == lists;
  }

  /** Every entry stored in a bucket shows up in the whole table with its
      own value, provided each bucket holds at most one entry per key. */
  lemma StoredEntryInTable<K, V>(lists: seq<seq<(K, V)>>, hasher: K -> nat, b: nat, j: nat)
    requires Partitioned(lists, hasher) && forall i :: 0 <= i < |lists| ==> NoDupKeys(lists[i])
    requires b < |lists| && j < |lists[b]|
    ensures lists[b][j].0 in ToMap(Concat(lists))
    ensures ToMap(Concat(lists))[lists[b][j].0] == lists[b][j].1
  {
    var key := lists[b][j].0;
    assert lists[b][j] in lists[b];
    OwnBucket(lists, hasher, key);
    ToMapLookup(lists[b], key);
    assert NoDupKeys(lists[b]);
  }

  /** Every key of the whole table is stored in some bucket. */
  lemma TableKeyIsStored<K, V>(lists: seq<seq<(K, V)>>, hasher: K -> nat, key: K)
    requires Partitioned(lists, hasher) && 0 < |lists|
    requires key in ToMap(Concat(lists))
    ensures exists b, j :: 0 <= b < |lists| && 0 <= j < |lists[b]| && lists[b][j].0 == key
  {
    OwnBucket(lists, hasher, key);
    var b := hasher(key) % |lists|;
    ToMapHasKey(lists[b], key);
  }

  /** Replacing the bucket of `key` by a list that differs from it only at
      `key` leaves every other key `k` as it was in the whole table, and at
      `key` the table follows the new bucket. */
  lemma ReplaceOwnBucket<K, V>(lists: seq<seq<(K, V)>>, hasher: K -> nat, key: K, bucket: seq<(K, V)>, k: K)
    requires Partitioned(lists, hasher) && 0 < |lists|
    requires Partitioned(lists[hasher(key) % |lists| := bucket], hasher)
    requires k != key ==> AgreeAt(ToMap(bucket), ToMap(lists[hasher(key) % |lists|]), k)
    ensures k != key ==> AgreeAt(ToMap(Concat(lists[hasher(key) % |lists| := bucket])), ToMap(Concat(lists)), k)
    ensures k == key ==> AgreeAt(ToMap(Concat(lists[hasher(key) % |lists| := bucket])), ToMap(bucket), k)
  {
    OwnBucket(lists[hasher(key) % |lists| := bucket], hasher, k);
    OwnBucket(lists, hasher, k);
  }

  /** Swapping a bucket for one holding only entries that hash to it keeps
      the table partitioned. */
  lemma ReplaceKeepsPartitioned<K, V>(lists: seq<seq<(K, V)>>, hasher: K -> nat, b: nat, bucket: seq<(K, V)>)
    requires Partitioned(lists, hasher) && b < |lists|
    requires forall e :: e in bucket ==> hasher(e.0) % |lists| == b
    ensures Partitioned(lists[b := bucket], hasher)
  {
  }

  /** One bucket of the table. */
  class Bucket<K(==), V> {
    var data: seq<(K, V)>

    ghost predicate Valid()
      reads this
    {
      NoDupKeys(data)
    }

    constructor()
      ensures data == [] && Valid()
    {
      data := [];
    }

    /** The value stored for `key`, or `defaultValue` when there is none. */
    function ValueFor(key: K, defaultValue: V): (r: V)
      reads this
      ensures key in ToMap(data) ==> r == ToMap(data)[key]
      ensures key !in ToMap(data) ==> r == defaultValue
    {
      ToMapLookup(data, key);
      var found := FindEntry(data, key);
      if found == |data| then defaultValue else data[found].1
    }

    /** Appends a new entry for an unknown key, otherwise overwrites the
        value of the existing entry in place. */
    method AddOrUpdateMapping(key: K, value: V)
      requires Valid()
      modifies this
      ensures Valid()
      ensures ToMap(data) == old(ToMap(data))[key := value]
      ensures var found := FindEntry(old(data), key);
        data == if found == |old(data)| then old(data) + [(key, value)] else old(data)[found := (key, value)]
      ensures forall e :: e in data ==> e in old(data) || e == (key, value)
    {
      var found := FindEntry(data, key);
      ToMapLookup(data, key);
      if found == |data| {
        AppendKeepsNoDup(data, key, value);
        ToMapSnoc(data, (key, value));
        data := data + [(key, value)];
      } else {
        UpdateKeepsNoDup(data, found, value);
        ToMapUpdateAt(data, key, value);
        ghost var before := data;
        data := data[found := (data[found].0, value)];
        forall e | e in data
          ensures e in before || e == (key, value)
        {
          var j :| 0 <= j < |data| && data[j] == e;
          if j != found {
            assert before[j] == e;
          }
        }
      }
    }

    /** Erases the entry for `key`, if there is one. */
    method RemoveMapping(key: K)
      requires Valid()
      modifies this
      ensures Valid()
      ensures ToMap(data) == old(ToMap(data)) - {key}
      ensures var found := FindEntry(old(data), key);
        data == if found == |old(data)| then old(data) else old(data)[..found] + old(data)[found + 1..]
      ensures forall e :: e in data ==> e in old(data)
    {
      var found := FindEntry(data, key);
      ToMapLookup(data, key);
      if found != |data| {
        RemoveKeepsNoDup(data, found);
        ToMapRemoveAt(data, found);
        data := data[..found] + data[found + 1..];
      } else {
        assert ToMap(data) - {key} == ToMap(data);
      }
    }
  }

  /** The constructor's loop: `n` freshly allocated, distinct, empty buckets. */
  method NewBuckets<K(==), V>(n: nat) returns (created: seq<Bucket<K, V>>)
    ensures |created| == n
    ensures forall i :: 0 <= i < n ==> fresh(created[i]) && created[i].data == []
    ensures forall i, j :: 0 <= i < j < n ==> created[i] != created[j]
  {
    created := [];
    while |created| < n
      invariant |created| <= n
      invariant forall i :: 0 <= i < |created| ==> fresh(created[i]) && created[i].data == []
      invariant forall i, j :: 0 <= i < j < |created| ==> created[i] != created[j]
    {
      var bucket := new Bucket();
      created := created + [bucket];
    }
  }

  /** `threadsafe_lookup_table`: the bucket vector and the hash function are
      fixed at construction. */
  class Table<K(==), V> {
    const buckets: seq<Bucket<K, V>>
    const hasher: K -> nat

    /** The bucket lists, in bucket order. */
    ghost function Lists(): (lists: seq<seq<(K, V)>>)
      reads buckets
      ensures |lists| == |buckets|
      ensures forall i :: 0 <= i < |buckets| ==> lists[i] == buckets[i].data
    {
      seq(|buckets|, i reads buckets requires 0 <= i < |buckets| => buckets[i].data)
    }

    /** The map the table stands for. */
    ghost function Contents(): map<K, V>
      reads buckets
    {
      ToMap(Concat(Lists()))
    }

    ghost predicate Valid()
      reads buckets
    {
      (forall i, j :: 0 <= i < j < |buckets| ==> buckets[i] != buckets[j]) &&
      (forall i :: 0 <= i < |buckets| ==> buckets[i].Valid()) &&
      Partitioned(Lists(), hasher)
    }

    /** Creates `numBuckets` empty buckets (19 unless told otherwise). */
    constructor(hasher: K -> nat, numBuckets: nat := 19)
      ensures |buckets| == numBuckets && this.hasher == hasher
      ensures forall i :: 0 <= i < |buckets| ==> fresh(buckets[i])
      ensures Valid()
      ensures Contents() == map[]
    {
      var created := NewBuckets<K, V>(numBuckets);
      buckets := created;
      this.hasher := hasher;
      new;
      ghost var lists := Lists();
      assert forall i :: 0 <= i < |lists| ==> lists[i] == [];
      ConcatOfEmpty(lists);
      assert Partitioned(lists, hasher);
    }

    /** The index of the bucket `key` belongs to. */
    function GetBucket(key: K): (b: nat)
      requires |buckets| > 0
      ensures b < |buckets|
    {
      hasher(key) % |buckets|
    }

    /** The value for `key`, or `defaultValue` when the table has none. */
    function ValueFor(key: K, defaultValue: V): (r: V)
      reads buckets
      requires Valid() && |buckets| > 0
      ensures key in Contents() ==> r == Contents()[key]
      ensures key !in Contents() ==> r == defaultValue
    {
      OwnBucket(Lists(), hasher, key);
      buckets[GetBucket(key)].ValueFor(key, defaultValue)
    }

    /** Maps `key` to `value`, touching only the bucket of `key`. */
    method AddOrUpdateMapping(key: K, value: V)
      requires Valid() && |buckets| > 0
      modifies buckets[GetBucket(key)]
      ensures Valid()
      ensures Contents() == old(Contents())[key := value]
      ensures forall i :: 0 <= i < |buckets| && i != GetBucket(key) ==> buckets[i].data == old(buckets[i].data)
    {
      var b := GetBucket(key);
      ghost var before := Lists();
      buckets[b].AddOrUpdateMapping(key, value);
      assert Lists() == before[b := buckets[b].data];
      ReplaceKeepsPartitioned(before, hasher, b, buckets[b].data);
      UpdateKey(before, hasher, key, value, buckets[b].data);
    }

    /** Erases the mapping for `key`, touching only the bucket of `key`. */
    method RemoveMapping(key: K)
      requires Valid() && |buckets| > 0
      modifies buckets[GetBucket(key)]
      ensures Valid()
      ensures Contents() == old(Contents()) - {key}
      ensures forall i :: 0 <= i < |buckets| && i != GetBucket(key) ==> buckets[i].data == old(buckets[i].data)
    {
      var b := GetBucket(key);
      ghost var before := Lists();
      buckets[b].RemoveMapping(key);
      assert Lists() == before[b := buckets[b].data];
      ReplaceKeepsPartitioned(before, hasher, b, buckets[b].data);
      RemoveKey(before, hasher, key, buckets[b].data);
    }

    /** A snapshot of the whole table as a `std::map`: the buckets are
        visited in index order and each one's entries in list order, and
        `insert` keeps the first value seen for a key.  Nothing is modified. */
    method GetMap() returns (res: map<K, V>)
      ensures res == Contents()
    {
      res := map[];
      var i := 0;
      while i < |buckets|
        invariant i <= |buckets|
        invariant res == ToMap(Concat(Lists()[..i]))
      {
        var data := buckets[i].data;
        ghost var done := Concat(Lists()[..i]);
        var j := 0;
        assert done + data[..j] == done;
        while j < |data|
          invariant j <= |data|
          invariant res == ToMap(done + data[..j])
        {
          ToMapSnoc(done + data[..j], data[j]);
          assert done + data[..j + 1] == (done + data[..j]) + [data[j]];
          if data[j].0 !in res {
            res := res[data[j].0 := data[j].1];
          }
          j := j + 1;
        }
        assert data[..j] == data;
        assert Lists()[..i + 1][..i] == Lists()[..i];
        i := i + 1;
      }
      assert Lists()[..i] == Lists();
    }
  }

  /** The table after `key` is mapped to `value` in its own bucket. */
  lemma UpdateKey<K, V>(lists: seq<seq<(K, V)>>, hasher: K -> nat, key: K, value: V, bucket: seq<(K, V)>)
    requires Partitioned(lists, hasher) && 0 < |lists|
    requires Partitioned(lists[hasher(key) % |lists| := bucket], hasher)
    requires ToMap(bucket) == ToMap(lists[hasher(key) % |lists|])[key := value]
    ensures ToMap(Concat(lists[hasher(key) % |lists| := bucket])) == ToMap(Concat(lists))[key := value]
  {
    var m1, m0 := ToMap(Concat(lists[hasher(key) % |lists| := bucket])), ToMap(Concat(lists))[key := value];
    forall k
      ensures AgreeAt(m1, m0, k)
    {
      ReplaceOwnBucket(lists, hasher, key, bucket, k);
    }
    MapExt(m1, m0);
  }

  /** The table after the mapping for `key` is erased from its own bucket. */
  lemma RemoveKey<K, V>(lists: seq<seq<(K, V)>>, hasher: K -> nat, key: K, bucket: seq<(K, V)>)
    requires Partitioned(lists, hasher) && 0 < |lists|
    requires Partitioned(lists[hasher(key) % |lists| := bucket], hasher)
    requires ToMap(bucket) == ToMap(lists[hasher(key) % |lists|]) - {key}
    ensures ToMap(Concat(lists[hasher(key) % |lists| := bucket])) == ToMap(Concat(lists)) - {key}
  {
    var m1, m0 := ToMap(Concat(lists[hasher(key) % |lists| := bucket])), ToMap(Concat(lists)) - {key};
    forall k
      ensures AgreeAt(m1, m0, k)
    {
      ReplaceOwnBucket(lists, hasher, key, bucket, k);
    }
    MapExt(m1, m0);
  }

  /** A fresh table hands back what was stored under a key and, once the
      mapping is removed, the default again. */
  method AddLookupRemove<K(==), V>(hasher: K -> nat, key: K, value: V, defaultValue: V) returns (found: V, afterRemove: V)
    ensures found == value && afterRemove == defaultValue
  {
    var table := new Table(hasher);
    table.AddOrUpdateMapping(key, value);
    found := table.ValueFor(key, defaultValue);
    table.RemoveMapping(key);
    afterRemove := table.ValueFor(key, defaultValue);
  }
}
