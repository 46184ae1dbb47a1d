/** `LRUCacheMap` of util.h: a list of entries, most recently used first, and an index into it. */
module Lru {
  import opened Base

  // ----- the cache as a value -----

  predicate DistinctKeys<K(==), V>(items: seq<(K, V)>) {
    forall i, j :: 0 <= i < j < |items| ==> items[i].0 != items[j].0
  }

  function Find<K(==), V>(items: seq<(K, V)>, k: K): Option<V> {
    if items == [] then None else if items[0].0 == k then Some(items[0].1) else Find(items[1..], k)
  }

  function Erase<K(==), V>(items: seq<(K, V)>, k: K): seq<(K, V)> {
    if items == [] then [] else if items[0].0 == k then Erase(items[1..], k) else [items[0]] + Erase(items[1..], k)
  }

  function Take<T>(s: seq<T>, n: nat): seq<T> {
    if |s| <= n then s else s[..n]
  }

  lemma {:induction false} EraseMid<K, V>(a: seq<(K, V)>, x: (K, V), b: seq<(K, V)>)
    requires DistinctKeys(a + [x] + b)
    ensures Erase(a + [x] + b, x.0) == a + b
    ensures Find(a + [x] + b, x.0) == Some(x.1)
    decreases |a|
  {
    var s := a + [x] + b;
    if a == [] {
      forall i | 0 <= i < |b| ensures b[i].0 != x.0 {
        assert s[i + 1] == b[i] && s[0] == x;
      }
      EraseAbsent(b, x.0);
    } else {
      assert s[0] == a[0] && s[|a|] == x;
      assert s[1..] == a[1..] + [x] + b;
      EraseMid(a[1..], x, b);
    }
  }

  lemma {:induction false} EraseAbsent<K, V>(items: seq<(K, V)>, k: K)
    requires forall i :: 0 <= i < |items| ==> items[i].0 != k
    ensures Erase(items, k) == items && Find(items, k) == None
  {
    if items != [] {
      EraseAbsent(items[1..], k);
    }
  }

  lemma {:induction false} FindErased<K, V>(items: seq<(K, V)>, k: K, x: K)
    ensures Find(Erase(items, k), x) == if x == k then None else Find(items, x)
  {
    if items != [] {
      FindErased(items[1..], k, x);
    }
  }

  lemma {:induction false} FindMember<K, V>(items: seq<(K, V)>, i: nat)
    requires DistinctKeys(items) && i < |items|
    ensures Find(items, items[i].0) == Some(items[i].1)
  {
    if i > 0 {
      FindMember(items[1..], i - 1);
    }
  }

  lemma {:induction false} FoundIsMember<K, V>(items: seq<(K, V)>, x: K)
    ensures Find(items, x).Some? ==> (x, Find(items, x).value) in items
  {
    if items != [] && items[0].0 != x {
      FoundIsMember(items[1..], x);
    }
  }

  lemma {:induction false} EraseMembers<K, V>(items: seq<(K, V)>, k: K)
    ensures forall x :: x in Erase(items, k) <==> x in items && x.0 != k
    ensures forall i :: 0 <= i < |Erase(items, k)| ==> Erase(items, k)[i].0 != k && Erase(items, k)[i] in items
    ensures |Erase(items, k)| <= |items| - (if Find(items, k).Some? then 1 else 0)
    ensures Find(items, k) == None ==> Erase(items, k) == items
  {
    if items != [] {
      EraseMembers(items[1..], k);
    }
  }

  /** Losing the last entry affects only its own key. */
  lemma {:induction false} FindWithoutLast<K, V>(items: seq<(K, V)>, x: K)
    requires DistinctKeys(items) && items != []
    ensures var last := items[|items| - 1].0;
      Find(items[..|items| - 1], x) == if x == last then None else Find(items, x)
  {
    if |items| > 1 {
      assert items[..|items| - 1][1..] == items[1..][..|items| - 2];
      FindWithoutLast(items[1..], x);
    }
  }

  // ----- recency -----

  function Drop<K(==)>(keys: seq<K>, k: K): seq<K> {
    if keys == [] then [] else if keys[0] == k then Drop(keys[1..], k) else [keys[0]] + Drop(keys[1..], k)
  }

  /** The keys of a cache of `max` entries after one more use of `k`. */
  function Touch<K(==)>(keys: seq<K>, k: K, max: nat): seq<K> {
    Take([k] + Drop(keys, k), max)
  }

  function TouchAll<K(==)>(keys: seq<K>, uses: seq<K>, max: nat): seq<K> {
    if uses == [] then keys else Touch(TouchAll(keys, uses[..|uses| - 1], max), uses[|uses| - 1], max)
  }

  /** The distinct keys of `uses`, most recent use first. */
  function Recent<K(==)>(uses: seq<K>): seq<K> {
    if uses == [] then [] else [uses[|uses| - 1]] + Drop(Recent(uses[..|uses| - 1]), uses[|uses| - 1])
  }

  lemma {:induction false} DropMembers<K>(keys: seq<K>, k: K)
    ensures forall x :: x in Drop(keys, k) <==> x in keys && x != k
    ensures |Drop(keys, k)| <= |keys|
  {
    if keys != [] {
      DropMembers(keys[1..], k);
    }
  }

  lemma TakeCons<T>(x: T, s: seq<T>, n: nat)
    requires n > 0
    ensures Take([x] + s, n) == [x] + Take(s, n - 1)
  {
  }

  /** Of the `n` keys after `k`, only the first `n + 1` keys before matter. */
  lemma {:induction false} DropTake<K>(keys: seq<K>, k: K, n: nat)
    requires forall i, j :: 0 <= i < j < |keys| ==> keys[i] != keys[j]
    ensures Take(Drop(Take(keys, n + 1), k), n) == Take(Drop(keys, k), n)
    decreases |keys|
  {
    if keys != [] {
      hide Drop, Take;
      var a, rest := keys[0], keys[1..];
      assert keys == [a] + rest;
      TakeCons(a, rest, n + 1);
      TakeIsPrefix(rest, n);
      if a == k {
        DropAbsent(rest, k);
        DropAbsent(Take(rest, n), k);
      } else if n > 0 {
        DropTake(rest, k, n - 1);
        TakeCons(a, Drop(rest, k), n);
        TakeCons(a, Drop(Take(rest, n), k), n);
      } else {
        TakeIsPrefix([a] + Drop(rest, k), 0);
        TakeIsPrefix([a] + Drop(Take(rest, n), k), 0);
      }
    }
  }

  lemma TakeIsPrefix<T>(s: seq<T>, n: nat)
    ensures Take(s, n) <= s && |Take(s, n)| == Min(|s|, n) && Take(Take(s, n), n) == Take(s, n)
  {
  }

  lemma {:induction false} DropAbsent<K>(keys: seq<K>, k: K)
    requires k !in keys
    ensures Drop(keys, k) == keys
  {
    if keys != [] {
      DropAbsent(keys[1..], k);
    }
  }

  lemma {:induction false} RecentIsDistinct<K>(uses: seq<K>)
    ensures forall i, j :: 0 <= i < j < |Recent(uses)| ==> Recent(uses)[i] != Recent(uses)[j]
    ensures forall x :: x in Recent(uses) <==> x in uses
    decreases |uses|
  {
    if uses != [] {
      var p, k := uses[..|uses| - 1], uses[|uses| - 1];
      RecentIsDistinct(p);
      DropMembers(Recent(p), k);
      DropIsDistinct(Recent(p), k);
      var d := Drop(Recent(p), k);
      forall i | 0 <= i < |d| ensures d[i] != k {
        assert d[i] in d;
      }
    }
  }

  lemma {:induction false} DropIsDistinct<K>(keys: seq<K>, k: K)
    requires forall i, j :: 0 <= i < j < |keys| ==> keys[i] != keys[j]
    ensures forall i, j :: 0 <= i < j < |Drop(keys, k)| ==> Drop(keys, k)[i] != Drop(keys, k)[j]
  {
    if keys != [] {
      DropIsDistinct(keys[1..], k);
      DropMembers(keys[1..], k);
      var d := Drop(keys[1..], k);
      forall i | 0 <= i < |d| ensures d[i] != keys[0] {
        assert d[i] in d;
      }
    }
  }

  lemma DroppedIsMember<K>(keys: seq<K>, k: K, x: K)
    requires x in Drop(keys, k)
    ensures x in keys
  {
    DropMembers(keys, k);
  }

  /** Dropping a key keeps the order of the others. */
  lemma {:induction false} DropKeepsOrder<K>(keys: seq<K>, k: K, i: nat, j: nat) returns (a: nat, b: nat)
    requires i < j < |Drop(keys, k)|
    ensures a < b < |keys| && keys[a] == Drop(keys, k)[i] && keys[b] == Drop(keys, k)[j]
  {
    if keys[0] == k {
      a, b := DropKeepsOrder(keys[1..], k, i, j);
      a, b := a + 1, b + 1;
    } else if i > 0 {
      a, b := DropKeepsOrder(keys[1..], k, i - 1, j - 1);
      a, b := a + 1, b + 1;
    } else {
      var d := Drop(keys[1..], k);
      var x := d[j - 1];
      DroppedIsMember(keys[1..], k, x);
      var m :| 0 <= m < |keys[1..]| && keys[1..][m] == x;
      a, b := 0, m + 1;
    }
  }

  /** An earlier key of `Recent` has been used at a time `p` from which on a later one has not been used any more. */
  lemma {:induction false} RecentOrder<K>(uses: seq<K>, i: nat, j: nat) returns (p: nat)
    requires i < j < |Recent(uses)|
    ensures p < |uses| && uses[p] == Recent(uses)[i] && Recent(uses)[j] !in uses[p..]
    decreases |uses|
  {
    hide Drop;
    var before, k := uses[..|uses| - 1], uses[|uses| - 1];
    RecentIsDistinct(uses);
    assert Recent(uses)[0] == k && Recent(uses)[j] != Recent(uses)[0];
    if i == 0 {
      p := |uses| - 1;
      assert uses[p..] == [k];
    } else {
      var a, b := DropKeepsOrder(Recent(before), k, i - 1, j - 1);
      p := RecentOrder(before, a, b);
      assert uses[p..] == before[p..] + [k];
    }
  }

  lemma MostRecentStep<K>(p: seq<K>, k: K, max: nat)
    ensures Touch(Take(Recent(p), max), k, max) == Take([k] + Drop(Recent(p), k), max)
  {
    hide Drop, Recent;
    RecentIsDistinct(p);
    if max > 0 {
      DropTake(Recent(p), k, max - 1);
    }
  }

  /** After any run of uses, an initially empty cache holds exactly the `max` most recently used keys. */
  lemma {:induction false} HoldsMostRecent<K>(uses: seq<K>, max: nat)
    ensures TouchAll([], uses, max) == Take(Recent(uses), max)
    decreases |uses|
  {
    if uses != [] {
      var p, k := uses[..|uses| - 1], uses[|uses| - 1];
      HoldsMostRecent(p, max);
      MostRecentStep(p, k, max);
    }
  }

  /** On the same run, a larger cache always contains a smaller one's keys, in the same order. */
  lemma LargerContainsSmaller<K>(uses: seq<K>, small: nat, large: nat)
    requires small <= large
    ensures TouchAll([], uses, small) <= TouchAll([], uses, large)
  {
    HoldsMostRecent(uses, small);
    HoldsMostRecent(uses, large);
  }

  // ----- the object -----

  function KeysOf<K, V>(items: seq<(K, V)>): (r: seq<K>)
    ensures |r| == |items| && forall i :: 0 <= i < |r| ==> r[i] == items[i].0
  {
    seq(|items|, i requires 0 <= i < |items| => items[i].0)
  }

  lemma {:induction false} EraseKeys<K, V>(items: seq<(K, V)>, k: K)
    ensures KeysOf(Erase(items, k)) == Drop(KeysOf(items), k)
  {
    if items != [] {
      EraseKeys(items[1..], k);
      assert KeysOf(items)[1..] == KeysOf(items[1..]);
    }
  }

  /** A hit only reorders the entries. */
  lemma Touched<K, V>(items: seq<(K, V)>, k: K, v: V, max: nat)
    requires DistinctKeys(items) && |items| <= max && Find(items, k) == Some(v)
    ensures var after := [(k, v)] + Erase(items, k);
      && |after| <= max && KeysOf(after) == Touch(KeysOf(items), k, max)
      && forall x :: x in after <==> x in items
  {
    var rest := Erase(items, k);
    var after := [(k, v)] + rest;
    EraseMembers(items, k);
    EraseKeys(items, k);
    FoundIsMember(items, k);
    forall x ensures x in after <==> x in items {
      if x in items && x.0 == k {
        var i, j :| 0 <= i < |items| && 0 <= j < |items| && items[i] == x && items[j] == (k, v);
      }
    }
  }

  lemma FrontIsDistinct<K, V>(items: seq<(K, V)>, k: K, v: V)
    requires DistinctKeys(items)
    ensures DistinctKeys([(k, v)] + Erase(items, k))
  {
    EraseKeepsDistinct(items, k);
    EraseMembers(items, k);
  }

  lemma {:induction false} EraseKeepsDistinct<K, V>(items: seq<(K, V)>, k: K)
    requires DistinctKeys(items)
    ensures DistinctKeys(Erase(items, k))
  {
    if items != [] {
      var rest := items[1..];
      EraseKeepsDistinct(rest, k);
      EraseMembers(rest, k);
      assert items == [items[0]] + rest;
      ConsIsDistinct(items[0], rest, Erase(rest, k));
    }
  }

  lemma ConsIsDistinct<K, V>(x: (K, V), rest: seq<(K, V)>, e: seq<(K, V)>)
    requires DistinctKeys([x] + rest) && DistinctKeys(e) && forall i :: 0 <= i < |e| ==> e[i] in rest
    ensures DistinctKeys([x] + e)
  {
    forall i | 0 <= i < |e| ensures e[i].0 != x.0 {
      var j :| 0 <= j < |rest| && rest[j] == e[i];
      assert ([x] + rest)[j + 1] == rest[j] && ([x] + rest)[0] == x;
    }
  }

  lemma LoadedIsDistinct<K, V>(items: seq<(K, V)>, k: K, v: V, max: nat)
    requires DistinctKeys(items) && 0 < max && Find(items, k) == None
    ensures DistinctKeys([(k, v)] + Take(items, max - 1))
  {
    forall i | 0 <= i < |items| ensures items[i].0 != k {
      FindMember(items, i);
    }
  }

  lemma TouchedFind<K, V>(items: seq<(K, V)>, k: K, v: V, x: K)
    requires Find(items, k) == Some(v)
    ensures Find([(k, v)] + Erase(items, k), x) == Find(items, x)
  {
    FindErased(items, k, x);
  }

  /** A miss adds the entry in front and, when the cache was full, loses the last one. */
  lemma Loaded<K, V>(items: seq<(K, V)>, k: K, v: V, max: nat)
    requires 0 < max && |items| <= max && Find(items, k) == None
    ensures Erase(items, k) == items
    ensures Take([(k, v)] + items, max) == [(k, v)] + Take(items, max - 1)
    ensures KeysOf([(k, v)] + Take(items, max - 1)) == Touch(KeysOf(items), k, max)
  {
    hide Erase, Take, KeysOf, Drop, Find;
    EraseMembers(items, k);
    EraseKeys(items, k);
    TakeCons((k, v), items, max);
    TakeCons(k, KeysOf(items), max);
    KeysOfTake(k, v, items, max - 1);
  }

  lemma KeysOfTake<K, V>(k: K, v: V, items: seq<(K, V)>, n: nat)
    ensures KeysOf([(k, v)] + Take(items, n)) == [k] + Take(KeysOf(items), n)
  {
  }

  lemma LoadedFind<K, V>(items: seq<(K, V)>, k: K, v: V, max: nat, x: K)
    requires DistinctKeys(items) && 0 < max && |items| <= max && Find(items, k) == None
    ensures Find([(k, v)] + Take(items, max - 1), x) ==
            if x == k then Some(v)
            else if |items| == max && x == items[max - 1].0 then None else Find(items, x)
    ensures |items| == max ==> Find(items, items[max - 1].0) == Some(items[max - 1].1)
  {
    var after := [(k, v)] + Take(items, max - 1);
    if |items| == max {
      FindWithoutLast(items, x);
      FindMember(items, max - 1);
    }
  }

  /** A list node; iterators into the list are references to nodes. */
  class Entry<K, V> {
    const key: K
    const value: V

    constructor (key: K, value: V)
      ensures this.key == key && this.value == value
    {
      this.key, this.value := key, value;
    }
  }

  function ItemsOf<K, V>(list: seq<Entry<K, V>>): (r: seq<(K, V)>)
    ensures |r| == |list| && forall i :: 0 <= i < |r| ==> r[i] == (list[i].key, list[i].value)
  {
    seq(|list|, i requires 0 <= i < |list| => (list[i].key, list[i].value))
  }

  /** The index holds the same distinct keys as the list and points at their nodes. */
  ghost predicate Indexes<K, V>(index: map<K, Entry<K, V>>, list: seq<Entry<K, V>>) {
    && (forall i, j :: 0 <= i < j < |list| ==> list[i].key != list[j].key)
    && (forall i :: 0 <= i < |list| ==> list[i].key in index && index[list[i].key] == list[i])
    && (forall k :: k in index ==> index[k] in list && index[k].key == k)
  }

  lemma NodeErased<K, V>(index: map<K, Entry<K, V>>, list: seq<Entry<K, V>>, i: nat)
    requires Indexes(index, list) && i < |list|
    ensures Indexes(index - {list[i].key}, list[..i] + list[i + 1..])
  {
  }

  lemma ItemErased<K, V>(list: seq<Entry<K, V>>, i: nat)
    requires forall i, j :: 0 <= i < j < |list| ==> list[i].key != list[j].key
    requires i < |list|
    ensures ItemsOf(list[..i] + list[i + 1..]) == Erase(ItemsOf(list), list[i].key)
    ensures Find(ItemsOf(list), list[i].key) == Some(list[i].value)
  {
    var items := ItemsOf(list);
    assert items == items[..i] + [items[i]] + items[i + 1..];
    EraseMid(items[..i], items[i], items[i + 1..]);
  }

  lemma NodePushed<K, V>(index: map<K, Entry<K, V>>, list: seq<Entry<K, V>>, e: Entry<K, V>)
    requires Indexes(index, list) && e.key !in index
    ensures Indexes(index[e.key := e], [e] + list)
    ensures ItemsOf([e] + list) == [(e.key, e.value)] + ItemsOf(list)
  {
  }

  /** A key that the index does not have occurs nowhere in the list. */
  lemma NotListed<K, V>(index: map<K, Entry<K, V>>, list: seq<Entry<K, V>>, k: K)
    requires Indexes(index, list)
    ensures k !in index ==> Erase(ItemsOf(list), k) == ItemsOf(list) && Find(ItemsOf(list), k) == None
  {
    if k !in index {
      EraseAbsent(ItemsOf(list), k);
    }
  }

  lemma LastErased<K, V>(index: map<K, Entry<K, V>>, list: seq<Entry<K, V>>)
    requires Indexes(index, list) && |list| > 0
    ensures Indexes(index - {list[|list| - 1].key}, list[..|list| - 1])
    ensures ItemsOf(list[..|list| - 1]) == ItemsOf(list)[..|list| - 1]
  {
  }

  class LRUCacheMap<K(==), V> {
    const maxSize: nat
    var cachesMap: map<K, Entry<K, V>>
    var keyValueList: seq<Entry<K, V>>

    constructor (maxSize: nat)
      ensures this.maxSize == maxSize && Valid() && Items() == []
    {
      this.maxSize, cachesMap, keyValueList := maxSize, map[], [];
    }

    /** Index and list hold the same distinct keys, at most `maxSize` of them. */
    ghost predicate Valid()
      reads this
    {
      |keyValueList| <= maxSize && Indexes(cachesMap, keyValueList)
    }

    ghost function Items(): seq<(K, V)>
      reads this
    {
      ItemsOf(keyValueList)
    }

    /** `list::erase` of the node of an indexed key, with its index entry. */
    method EraseNode(key: K)
      requires Indexes(cachesMap, keyValueList) && key in cachesMap
      modifies this
      ensures cachesMap == old(cachesMap) - {key}
      ensures Indexes(cachesMap, keyValueList) && key !in cachesMap && |keyValueList| == |old(keyValueList)| - 1
      ensures Items() == Erase(old(Items()), key) && Find(old(Items()), key) == Some(old(cachesMap[key].value))
    {
      var i :| 0 <= i < |keyValueList| && keyValueList[i] == cachesMap[key];
      NodeErased(cachesMap, keyValueList, i);
      ItemErased(keyValueList, i);
      cachesMap := cachesMap - {key};
      keyValueList := keyValueList[..i] + keyValueList[i + 1..];
    }

    /**
     * Makes `key -> value` the most recent entry. `dropped` lists the values whose entries disappear: the
     * one `key` had before, and the least recent one if the cache has grown past `maxSize`.
     */
    method Put(key: K, value: V) returns (dropped: seq<V>)
      requires Valid()
      modifies this
      ensures Valid()
      ensures var all := [(key, value)] + Erase(old(Items()), key);
        && Items() == Take(all, maxSize)
        && dropped == (match Find(old(Items()), key) case Some(v) => [v] case None => [])
                    + (if |all| > maxSize then [all[|all| - 1].1] else [])
    {
      hide Indexes, Erase, Find;
      dropped := [];
      NotListed(cachesMap, keyValueList, key);
      if key in cachesMap {
        dropped := [cachesMap[key].value];
        EraseNode(key);
      }
      var e := new Entry(key, value);
      NodePushed(cachesMap, keyValueList, e);
      keyValueList := [e] + keyValueList;
      cachesMap := cachesMap[key := e];
      if |keyValueList| > maxSize {
        LastErased(cachesMap, keyValueList);
        var last := keyValueList[|keyValueList| - 1];
        dropped := dropped + [last.value];
        cachesMap := cachesMap - {last.key};
        keyValueList := keyValueList[..|keyValueList| - 1];
      }
    }

    /** Finds `key` and makes it the most recent entry by splicing its node to the front. */
    method Get(key: K) returns (r: Option<V>)
      requires Valid()
      modifies this
      ensures Valid() && r == Find(old(Items()), key) && cachesMap == old(cachesMap)
      ensures Items() == if r.Some? then [(key, r.value)] + Erase(old(Items()), key) else old(Items())
    {
      hide Indexes, Erase, Find;
      NotListed(cachesMap, keyValueList, key);
      if key !in cachesMap {
        return None;
      }
      var e := cachesMap[key];
      ghost var index := cachesMap;
      IndexedNode(cachesMap, keyValueList, key);
      EraseNode(key);
      NodePushed(cachesMap, keyValueList, e);
      keyValueList, cachesMap := [e] + keyValueList, cachesMap[key := e];
      r := Some(e.value);
    }

    method Remove(key: K) returns (r: Option<V>)
      requires Valid()
      modifies this
      ensures Valid() && r == Find(old(Items()), key) && Items() == Erase(old(Items()), key)
    {
      hide Indexes, Erase, Find;
      NotListed(cachesMap, keyValueList, key);
      if key !in cachesMap {
        return None;
      }
      r := Some(cachesMap[key].value);
      EraseNode(key);
    }

    /** Drops every entry, front to back. */
    method Clear() returns (dropped: seq<V>)
      requires Valid()
      modifies this
      ensures Valid() && Items() == []
      ensures |dropped| == |old(Items())| && forall i :: 0 <= i < |dropped| ==> dropped[i] == old(Items())[i].1
    {
      dropped := seq(|keyValueList|, i requires 0 <= i < |keyValueList| reads this => keyValueList[i].value);
      cachesMap, keyValueList := map[], [];
    }
  }

  lemma IndexedNode<K, V>(index: map<K, Entry<K, V>>, list: seq<Entry<K, V>>, k: K)
    requires Indexes(index, list) && k in index
    ensures index[k].key == k && |list| > 0
  {
  }
}
