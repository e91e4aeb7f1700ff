/** The contents of one lookup-table bucket: a `std::list` of (key, value)
    pairs searched front to back with `std::find_if`.  `ToMap` gives the map
    such a list stands for, reading the pairs in order and keeping the first
    value seen for each key; that is both what a front-to-back `find_if`
    returns and what `std::map::insert` (which never overwrites) builds. */
module AssocList {
  import opened SeqSearch

  /** The `find_if` predicate "the entry's key is `key`". */
  function KeyIs<K(==), V>(key: K): ((K, V)) -> bool
  {
    (e: (K, V)) => e.0 == key
  }

  /** `find_entry_for`: the index of the first entry for `key`, or the length
      of the list (the end iterator) when there is none. */
  function FindEntry<K(==), V>(entries: seq<(K, V)>, key: K): (i: nat)
    ensures i <= |entries|
    ensures i < |entries| ==> entries[i].0 == key
    ensures forall j :: 0 <= j < i ==> entries[j].0 != key
  {
    FindIf(entries, KeyIs(key))
  }

  /** The map the list stands for: the first entry for a key wins. */
  function ToMap<K(==), V>(entries: seq<(K, V)>): map<K, V>
  {
    if entries == [] then map[] else ToMap(entries[1..])[entries[0].0 := entries[0].1]
  }

  /** The bucket invariant: at most one entry per key. */
  ghost predicate NoDupKeys<K, V>(entries: seq<(K, V)>)
  {
    forall i, j :: 0 <= i < j < |entries| ==> entries[i].0 != entries[j].0
  }

  /** A key is in the map exactly when `find_entry_for` finds it, and then
      its value is that of the entry found. */
  lemma {:induction false} ToMapLookup<K, V>(entries: seq<(K, V)>, key: K)
    ensures key in ToMap(entries) <==> FindEntry(entries, key) < |entries|
    ensures key in ToMap(entries) ==> ToMap(entries)[key] == entries[FindEntry(entries, key)].1
  {
    if entries != [] && entries[0].0 != key {
      ToMapLookup(entries[1..], key);
      assert FindEntry(entries, key) == 1 + FindEntry(entries[1..], key);
    }
  }

  /** A key is in the map exactly when some entry carries it. */
  lemma ToMapHasKey<K, V>(entries: seq<(K, V)>, key: K)
    ensures key in ToMap(entries) <==> exists j :: 0 <= j < |entries| && entries[j].0 == key
  {
    ToMapLookup(entries, key);
  }

  /** The map of two lists one after the other: where both have a key, the
      first list's entry wins. */
  lemma {:induction false} ToMapConcat<K, V>(a: seq<(K, V)>, b: seq<(K, V)>)
    ensures ToMap(a + b) == ToMap(b) + ToMap(a)
  {
    if a == [] {
      assert a + b == b;
    } else {
      assert (a + b)[1..] == a[1..] + b;
      ToMapConcat(a[1..], b);
    }
  }

  /** Appending one entry, which is what `insert` does to the map: it is
      added only when its key is new. */
  lemma ToMapSnoc<K, V>(entries: seq<(K, V)>, e: (K, V))
    ensures ToMap(entries + [e]) == if e.0 in ToMap(entries) then ToMap(entries) else ToMap(entries)[e.0 := e.1]
  {
    ToMapConcat(entries, [e]);
    assert ToMap([e]) == map[e.0 := e.1];
  }

  /** Overwriting the value of the first entry for `key` updates the map at
      `key` and nowhere else. */
  lemma {:induction false} ToMapUpdateAt<K, V>(entries: seq<(K, V)>, key: K, value: V)
    requires FindEntry(entries, key) < |entries|
    ensures ToMap(entries[FindEntry(entries, key) := (key, value)]) == ToMap(entries)[key := value]
  {
    var i := FindEntry(entries, key);
    var updated := entries[i := (key, value)];
    if i == 0 {
      assert updated[1..] == entries[1..];
    } else {
      assert entries[0].0 != key;
      assert FindEntry(entries, key) == 1 + FindEntry(entries[1..], key);
      assert updated[1..] == entries[1..][i - 1 := (key, value)];
      ToMapUpdateAt(entries[1..], key, value);
    }
  }

  /** Erasing the entry at `i` from a list without duplicate keys removes its
      key from the map and nothing else. */
  lemma {:induction false} ToMapRemoveAt<K, V>(entries: seq<(K, V)>, i: nat)
    requires NoDupKeys(entries) && i < |entries|
    ensures ToMap(entries[..i] + entries[i + 1..]) == ToMap(entries) - {entries[i].0}
  {
    var rest := entries[1..];
    var e0 := entries[0];
    assert NoDupKeys(rest);
    assert ToMap(entries) == ToMap(rest)[e0.0 := e0.1];
    if i == 0 {
      assert entries[..0] + entries[1..] == rest;
      ToMapHasKey(rest, e0.0);
      MapUpdateRemove(ToMap(rest), e0.0, e0.1);
    } else {
      var shorter := rest[..i - 1] + rest[i..];
      assert entries[..i] + entries[i + 1..] == [e0] + shorter;
      assert ([e0] + shorter)[1..] == shorter;
      ToMapRemoveAt(rest, i - 1);
      assert rest[i - 1] == entries[i];
      assert e0.0 != entries[i].0;
      MapUpdateCommutesRemove(ToMap(rest), e0.0, e0.1, entries[i].0);
    }
  }

  lemma MapUpdateRemove<K, V>(m: map<K, V>, k: K, v: V)
    requires k !in m
    ensures m[k := v] - {k} == m
  {
  }

  lemma MapUpdateCommutesRemove<K, V>(m: map<K, V>, k: K, v: V, r: K)
    requires k != r
    ensures (m - {r})[k := v] == m[k := v] - {r}
  {
  }

  /** Appending an entry whose key is absent keeps keys unique. */
  lemma AppendKeepsNoDup<K, V>(entries: seq<(K, V)>, key: K, value: V)
    requires NoDupKeys(entries) && FindEntry(entries, key) == |entries|
    ensures NoDupKeys(entries + [(key, value)])
  {
  }

  /** Overwriting the value of an entry keeps keys unique. */
  lemma UpdateKeepsNoDup<K, V>(entries: seq<(K, V)>, i: nat, value: V)
    requires NoDupKeys(entries) && i < |entries|
    ensures NoDupKeys(entries[i := (entries[i].0, value)])
  {
  }

  /** Erasing an entry keeps keys unique. */
  lemma RemoveKeepsNoDup<K, V>(entries: seq<(K, V)>, i: nat)
    requires NoDupKeys(entries) && i < |entries|
    ensures NoDupKeys(entries[..i] + entries[i + 1..])
  {
    var r := entries[..i] + entries[i + 1..];
    forall a, b | 0 <= a < b < |r|
      ensures r[a].0 != r[b].0
    {
      var a' := if a < i then a else a + 1;
      var b' := if b < i then b else b + 1;
      assert r[a] == entries[a'] && r[b] == entries[b'];
    }
  }
}
