/** Grouping items by a key, the way a HashMap<K, List<V>> is filled by one
    pass over a list: each item is appended to the list of its key. `keys[k]`
    is the key of `items[k]`. Nothing here depends on what the keys are. */
module Grouping {
  import opened Sequences
  import opened Tallies

  /** The items whose key is `f`, in list order. */
  function GroupBy<K(==), V>(keys: seq<K>, items: seq<V>, f: K): seq<V>
    requires |keys| == |items|
  {
    if keys == [] then []
    else
      GroupBy(keys[..|keys| - 1], items[..|items| - 1], f)
        + (if keys[|keys| - 1] == f then [items[|items| - 1]] else [])
  }

  /** A group holds as many items as its key has occurrences, and exactly the
      items whose key it is. */
  lemma {:induction false} GroupBySpec<K, V>(keys: seq<K>, items: seq<V>, f: K, v: V)
    requires |keys| == |items|
    ensures |GroupBy(keys, items, f)| == multiset(keys)[f]
    ensures v in GroupBy(keys, items, f) <==> exists k :: 0 <= k < |keys| && keys[k] == f && items[k] == v
  {
    if keys != [] {
      var n := |keys| - 1;
      var ks, vs := keys[..n], items[..n];
      assert keys == ks + [keys[n]];
      GroupBySpec(ks, vs, f, v);
      if v in GroupBy(keys, items, f) && v !in GroupBy(ks, vs, f) {
        assert keys[n] == f && items[n] == v;
      }
      if exists k :: 0 <= k < |keys| && keys[k] == f && items[k] == v {
        var k :| 0 <= k < |keys| && keys[k] == f && items[k] == v;
        if k < n {
          assert ks[k] == f && vs[k] == v;
        }
      }
    }
  }

  /** The map built by visiting the items in order: each item is appended to
      the list of its key, a key's list being created empty on first sight. */
  function GroupsBy<K(==), V>(keys: seq<K>, items: seq<V>): map<K, seq<V>>
    requires |keys| == |items|
  {
    if keys == [] then map[]
    else
      var m := GroupsBy(keys[..|keys| - 1], items[..|items| - 1]);
      var f := keys[|keys| - 1];
      m[f := (if f in m then m[f] else []) + [items[|items| - 1]]]
  }

  /** Visiting one more item appends it to the list of its key. */
  lemma GroupsByStep<K, V>(keys: seq<K>, items: seq<V>, m: nat)
    requires |keys| == |items| && m < |keys|
    ensures var g := GroupsBy(keys[..m], items[..m]);
      GroupsBy(keys[..m + 1], items[..m + 1]) == g[keys[m] := (if keys[m] in g then g[keys[m]] else []) + [items[m]]]
  {
    assert keys[..m + 1][..m] == keys[..m];
    assert items[..m + 1][..m] == items[..m];
  }

  /** The keys of the map are the keys that occur, and each maps to its group. */
  lemma {:induction false} GroupsBySpec<K, V>(keys: seq<K>, items: seq<V>, f: K)
    requires |keys| == |items|
    ensures f in GroupsBy(keys, items) <==> f in keys
    ensures f in GroupsBy(keys, items) ==> GroupsBy(keys, items)[f] == GroupBy(keys, items, f)
  {
    if keys != [] {
      var n := |keys| - 1;
      assert keys == keys[..n] + [keys[n]];
      GroupsBySpec(keys[..n], items[..n], f);
      if f !in keys[..n] {
        GroupBySpec(keys[..n], items[..n], f, items[n]);
        assert GroupBy(keys[..n], items[..n], f) == [];
      }
    }
  }

  /** The size of each group. */
  function Sizes<K(==), V>(groups: map<K, seq<V>>): map<K, nat>
  {
    map f | f in groups :: |groups[f]|
  }

  /** The groups partition the items: their sizes add up to the number of items. */
  lemma {:induction false} GroupsByPartition<K, V>(keys: seq<K>, items: seq<V>)
    requires |keys| == |items|
    ensures Total(Sizes(GroupsBy(keys, items))) == |items|
  {
    if keys == [] {
      assert Sizes(GroupsBy(keys, items)) == map[];
    } else {
      var n := |keys| - 1;
      GroupsByPartition(keys[..n], items[..n]);
      var m := GroupsBy(keys[..n], items[..n]);
      assert Sizes(GroupsBy(keys, items)) == Sizes(m)[keys[n] := Get(Sizes(m), keys[n]) + 1];
      TotalBump(Sizes(m), keys[n]);
    }
  }

  /** The size of the group of each item's key, in list order. */
  function Multiplicities<K(==)>(keys: seq<K>): (s: seq<nat>)
    ensures |s| == |keys|
  {
    seq(|keys|, j requires 0 <= j < |keys| => multiset(keys)[keys[j]])
  }

  /** The size of the largest group. */
  function LargestGroup<K(==)>(keys: seq<K>): nat
  {
    MaxOf(Multiplicities(keys))
  }

  /** Any value found by scanning the map for its largest list is LargestGroup. */
  lemma LargestGroupOfMap<K, V>(keys: seq<K>, items: seq<V>, m: nat)
    requires |keys| == |items|
    requires forall f :: f in GroupsBy(keys, items) ==> |GroupsBy(keys, items)[f]| <= m
    requires m == 0 || exists f :: f in GroupsBy(keys, items) && |GroupsBy(keys, items)[f]| == m
    ensures m == LargestGroup(keys)
  {
    var s := Multiplicities(keys);
    forall j | 0 <= j < |s|
      ensures s[j] <= m
    {
      GroupsBySpec(keys, items, keys[j]);
      GroupBySpec(keys, items, keys[j], items[j]);
    }
    if m != 0 {
      var f :| f in GroupsBy(keys, items) && |GroupsBy(keys, items)[f]| == m;
      GroupsBySpec(keys, items, f);
      GroupBySpec(keys, items, f, items[0]);
      var j :| 0 <= j < |keys| && keys[j] == f;
      assert s[j] == m;
    }
    MaxOfUnique(s, m);
  }

  /** A value occurs at most once per position, and so do two different
      values together. */
  lemma {:induction false} CountPair<K>(s: seq<K>, f: K, x: K)
    ensures multiset(s)[f] <= |s|
    ensures f != x ==> multiset(s)[f] + multiset(s)[x] <= |s|
  {
    if s != [] {
      var n := |s| - 1;
      assert s == s[..n] + [s[n]];
      CountPair(s[..n], f, x);
    }
  }

  /** A sequence holding a single value throughout has it at every position. */
  lemma {:induction false} CountConstant<K>(s: seq<K>, x: K)
    requires forall i :: 0 <= i < |s| ==> s[i] == x
    ensures multiset(s)[x] == |s|
  {
    if s != [] {
      var n := |s| - 1;
      assert s == s[..n] + [s[n]];
      CountConstant(s[..n], x);
    }
  }

  /** The largest group has at least one and at most all of the items, and it
      is smaller than all of them exactly when two items have different keys. */
  lemma LargestGroupBounds<K>(keys: seq<K>)
    ensures LargestGroup(keys) <= |keys|
    ensures keys != [] ==> 1 <= LargestGroup(keys)
    ensures keys != [] ==>
      (LargestGroup(keys) < |keys| <==> exists a :: 0 <= a < |keys| && keys[a] != keys[0])
  {
    var s := Multiplicities(keys);
    MaxOfIsMaximum(s);
    forall j | 0 <= j < |s|
      ensures s[j] <= |keys|
    {
      CountPair(keys, keys[j], keys[j]);
    }
    if keys != [] {
      assert s[0] >= 1;
      if a :| 0 <= a < |keys| && keys[a] != keys[0] {
        forall j | 0 <= j < |s|
          ensures s[j] < |keys|
        {
          if keys[j] == keys[0] {
            CountPair(keys, keys[j], keys[a]);
          } else {
            CountPair(keys, keys[j], keys[0]);
          }
        }
      } else {
        CountConstant(keys, keys[0]);
        assert s[0] == |keys|;
      }
    }
  }
}
