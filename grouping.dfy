/**
 * The specification of "group the items of a list by a key", shared by the two copies of
 * `regroupArr` and by the per-day bucketing of matches. `keyOf` stands for the property
 * lookup `item[key]` (already turned into the object key it becomes).
 */
module Grouping {

  /** The items of `s` whose key is `k`, in input order. */
  ghost function Members<T, K>(s: seq<T>, keyOf: T -> K, k: K): (r: seq<T>)
    ensures |r| <= |s|
    ensures forall x :: x in r ==> x in s && keyOf(x) == k
  {
    if s == [] then []
    else Members(s[..|s| - 1], keyOf, k) + (if keyOf(s[|s| - 1]) == k then [s[|s| - 1]] else [])
  }

  /** The keys that occur in `s`. */
  ghost function KeysOf<T, K>(s: seq<T>, keyOf: T -> K): set<K> {
    set x | x in s :: keyOf(x)
  }

  /** The items of `s` whose key lies in `ks`, in input order. */
  ghost function WithKeyIn<T, K>(s: seq<T>, keyOf: T -> K, ks: set<K>): seq<T> {
    if s == [] then []
    else WithKeyIn(s[..|s| - 1], keyOf, ks) + (if keyOf(s[|s| - 1]) in ks then [s[|s| - 1]] else [])
  }

  /** All groups laid end to end. */
  ghost function Flatten<T>(gs: seq<seq<T>>): seq<T> {
    if gs == [] then [] else Flatten(gs[..|gs| - 1]) + gs[|gs| - 1]
  }

  /** One group per key of `ks`, in the order of `ks`. */
  ghost function GroupsOf<T, K>(s: seq<T>, keyOf: T -> K, ks: seq<K>): (gs: seq<seq<T>>)
    ensures |gs| == |ks|
    ensures forall j :: 0 <= j < |ks| ==> gs[j] == Members(s, keyOf, ks[j])
  {
    seq(|ks|, j requires 0 <= j < |ks| => Members(s, keyOf, ks[j]))
  }

  ghost predicate Distinct<K>(ks: seq<K>) {
    forall a, b :: 0 <= a < b < |ks| ==> ks[a] != ks[b]
  }

  /**
   * What it means for `groups` to be the result of grouping `s` by `keyOf`: every group is
   * non-empty and is exactly the items of `s` with its key, in input order; no two groups share
   * a key; and every key of `s` has a group.
   */
  ghost predicate IsGrouping<T, K>(s: seq<T>, keyOf: T -> K, groups: seq<seq<T>>) {
    && (forall g :: g in groups ==> g != [] && g == Members(s, keyOf, keyOf(g[0])))
    && (forall a, b :: 0 <= a < b < |groups| && groups[a] != [] && groups[b] != [] ==>
          keyOf(groups[a][0]) != keyOf(groups[b][0]))
    && (set g | g in groups && g != [] :: keyOf(g[0])) == KeysOf(s, keyOf)
  }

  /** Every key that occurs has at least one member. */
  lemma {:induction false} MembersNonEmpty<T, K>(s: seq<T>, keyOf: T -> K, k: K)
    requires k in KeysOf(s, keyOf)
    ensures Members(s, keyOf, k) != []
  {
    var x :| x in s && keyOf(x) == k;
    var last := s[|s| - 1];
    if keyOf(last) != k {
      assert x in s[..|s| - 1] by {
        var i :| 0 <= i < |s| && s[i] == x;
        assert i != |s| - 1;
        assert s[..|s| - 1][i] == x;
      }
      MembersNonEmpty(s[..|s| - 1], keyOf, k);
    }
  }

  /** Every item is a member of the group of its own key. */
  lemma {:induction false} MembersHas<T, K>(s: seq<T>, keyOf: T -> K, x: T)
    requires x in s
    ensures x in Members(s, keyOf, keyOf(x))
  {
    var init := s[..|s| - 1];
    if x != s[|s| - 1] {
      assert x in init by {
        var i :| 0 <= i < |s| && s[i] == x;
        assert init[i] == x;
      }
      MembersHas(init, keyOf, x);
    }
  }

  /** Appending one item extends exactly the group of its key. */
  lemma MembersSnoc<T, K>(s: seq<T>, x: T, keyOf: T -> K, k: K)
    ensures Members(s + [x], keyOf, k) == Members(s, keyOf, k) + (if keyOf(x) == k then [x] else [])
  {
    assert (s + [x])[..|s|] == s;
  }

  /** The keys of a list extended by one item. */
  lemma KeysOfSnoc<T, K>(s: seq<T>, x: T, keyOf: T -> K)
    ensures KeysOf(s + [x], keyOf) == KeysOf(s, keyOf) + {keyOf(x)}
  {
    forall k | k in KeysOf(s + [x], keyOf) ensures k in KeysOf(s, keyOf) + {keyOf(x)} {
      var y :| y in s + [x] && keyOf(y) == k;
    }
  }

  /** Taking the items of one more key adds exactly that key's members. */
  lemma {:induction false} WithKeyInAdd<T, K>(s: seq<T>, keyOf: T -> K, ks: set<K>, k: K)
    requires k !in ks
    ensures multiset(WithKeyIn(s, keyOf, ks + {k}))
         == multiset(WithKeyIn(s, keyOf, ks)) + multiset(Members(s, keyOf, k))
  {
    if s != [] {
      WithKeyInAdd(s[..|s| - 1], keyOf, ks, k);
    }
  }

  /** Keeping the items whose key lies in a superset of the keys keeps everything. */
  lemma {:induction false} WithAllKeys<T, K>(s: seq<T>, keyOf: T -> K, ks: set<K>)
    requires KeysOf(s, keyOf) <= ks
    ensures WithKeyIn(s, keyOf, ks) == s
  {
    if s != [] {
      var init := s[..|s| - 1];
      assert KeysOf(init, keyOf) <= ks by {
        forall k | k in KeysOf(init, keyOf) ensures k in ks {
          var y :| y in init && keyOf(y) == k;
          assert y in s;
        }
      }
      assert keyOf(s[|s| - 1]) in KeysOf(s, keyOf);
      WithAllKeys(init, keyOf, ks);
      assert init + [s[|s| - 1]] == s;
    }
  }

  /** The groups for distinct keys together hold exactly the items with those keys. */
  lemma {:induction false} GroupsCover<T, K>(s: seq<T>, keyOf: T -> K, ks: seq<K>)
    requires Distinct(ks)
    ensures multiset(Flatten(GroupsOf(s, keyOf, ks))) == multiset(WithKeyIn(s, keyOf, set k | k in ks))
  {
    if ks == [] {
      assert (set k | k in ks) == {};
      EmptyKeys(s, keyOf);
    } else {
      var init := ks[..|ks| - 1];
      var last := ks[|ks| - 1];
      assert Distinct(init);
      var gs := GroupsOf(s, keyOf, ks);
      assert gs[..|gs| - 1] == GroupsOf(s, keyOf, init);
      GroupsCover(s, keyOf, init);
      assert (set k | k in ks) == (set k | k in init) + {last} by {
        assert ks == init + [last];
      }
      assert last !in init;
      WithKeyInAdd(s, keyOf, (set k | k in init), last);
    }
  }

  lemma {:induction false} EmptyKeys<T, K>(s: seq<T>, keyOf: T -> K)
    ensures WithKeyIn(s, keyOf, {}) == []
  {
    if s != [] {
      EmptyKeys(s[..|s| - 1], keyOf);
    }
  }

  /** Grouping by every key that occurs, each once, is a rearrangement of the input. */
  lemma PartitionPermutation<T, K>(s: seq<T>, keyOf: T -> K, ks: seq<K>)
    requires Distinct(ks)
    requires (set k | k in ks) == KeysOf(s, keyOf)
    ensures multiset(Flatten(GroupsOf(s, keyOf, ks))) == multiset(s)
  {
    GroupsCover(s, keyOf, ks);
    WithAllKeys(s, keyOf, (set k | k in ks));
  }

  /** The groups of a grouping, laid end to end, are a permutation of the input. */
  lemma GroupingIsPermutation<T, K>(s: seq<T>, keyOf: T -> K, groups: seq<seq<T>>)
    requires IsGrouping(s, keyOf, groups)
    ensures multiset(Flatten(groups)) == multiset(s)
  {
    assert forall j :: 0 <= j < |groups| ==> groups[j] in groups;
    var ks := seq(|groups|, j requires 0 <= j < |groups| => keyOf(groups[j][0]));
    assert Distinct(ks);
    assert (set k | k in ks) == KeysOf(s, keyOf) by {
      forall k | k in ks ensures k in (set g | g in groups && g != [] :: keyOf(g[0])) {
        var j :| 0 <= j < |ks| && ks[j] == k;
        assert groups[j] in groups;
      }
      forall k | k in (set g | g in groups && g != [] :: keyOf(g[0])) ensures k in ks {
        var g :| g in groups && g != [] && keyOf(g[0]) == k;
        var j :| 0 <= j < |groups| && groups[j] == g;
        assert ks[j] == k;
      }
    }
    assert groups == GroupsOf(s, keyOf, ks) by {
      forall j | 0 <= j < |groups| ensures groups[j] == GroupsOf(s, keyOf, ks)[j] {
        assert groups[j] in groups;
      }
    }
    PartitionPermutation(s, keyOf, ks);
  }

  /** Two lists with the same set of elements: an element of one has an index in the other. */
  lemma IndexInOther<K>(a: seq<K>, b: seq<K>, j: int) returns (i: int)
    requires (set k | k in a) == (set k | k in b)
    requires 0 <= j < |a|
    ensures 0 <= i < |b| && b[i] == a[j]
  {
    var elements := set k | k in a;
    assert a[j] in elements;
    i :| 0 <= i < |b| && b[i] == a[j];
  }

  /** A list without repetitions has as many elements as its set. */
  lemma {:induction false} DistinctCardinality<K>(ks: seq<K>)
    requires Distinct(ks)
    ensures |set k | k in ks| == |ks|
  {
    if ks != [] {
      var init := ks[..|ks| - 1];
      var last := ks[|ks| - 1];
      assert Distinct(init);
      DistinctCardinality(init);
      assert (set k | k in ks) == (set k | k in init) + {last} by {
        assert ks == init + [last];
      }
      assert last !in init;
    }
  }

  /**
   * A dictionary from key to group, filled from the items of `s` so far: its keys, listed once each
   * in `keys`, are the keys of `s`, and each holds the items of `s` with that key in input order.
   */
  ghost predicate GroupedSoFar<T, K>(s: seq<T>, keyOf: T -> K, grouped: map<K, seq<T>>, keys: seq<K>) {
    && grouped.Keys == (set k | k in keys) == KeysOf(s, keyOf)
    && Distinct(keys)
    && (forall k :: k in grouped ==> grouped[k] == Members(s, keyOf, k))
  }

  /** Nothing has been grouped yet. */
  lemma GroupedEmpty<T, K>(keyOf: T -> K)
    ensures GroupedSoFar([], keyOf, map[], [])
  {
  }

  /** A key that does not occur has no members. */
  lemma MembersAbsent<T, K>(s: seq<T>, keyOf: T -> K, k: K)
    requires k !in KeysOf(s, keyOf)
    ensures Members(s, keyOf, k) == []
  {
  }

  /** The keys grow by the key of the new item, which is listed once, on first sight. */
  lemma GroupKeysStep<T, K>(s: seq<T>, x: T, keyOf: T -> K, grouped: map<K, seq<T>>, keys: seq<K>)
    requires grouped.Keys == (set k | k in keys) == KeysOf(s, keyOf) && Distinct(keys)
    ensures var keys' := if keyOf(x) in grouped then keys else keys + [keyOf(x)];
            && grouped.Keys + {keyOf(x)} == (set k' | k' in keys') == KeysOf(s + [x], keyOf)
            && Distinct(keys')
  {
    var k := keyOf(x);
    KeysOfSnoc(s, x, keyOf);
    if k !in grouped {
      var keys' := keys + [k];
      assert (set k' | k' in keys') == (set k' | k' in keys) + {k};
      assert Distinct(keys');
    }
  }

  /** Appending the new item to its key's group keeps every group equal to its key's members. */
  lemma GroupValuesStep<T, K>(s: seq<T>, x: T, keyOf: T -> K, created: map<K, seq<T>>)
    requires keyOf(x) in created
    requires forall k :: k in created ==> created[k] == Members(s, keyOf, k)
    ensures var next := created[keyOf(x) := created[keyOf(x)] + [x]];
            forall k :: k in next ==> next[k] == Members(s + [x], keyOf, k)
  {
    var next := created[keyOf(x) := created[keyOf(x)] + [x]];
    forall k | k in next ensures next[k] == Members(s + [x], keyOf, k) {
      MembersSnoc(s, x, keyOf, k);
    }
  }

  /** Adding an item whose key already has a group: the item joins that group. */
  lemma GroupedSeenStep<T, K>(s: seq<T>, x: T, keyOf: T -> K, grouped: map<K, seq<T>>, keys: seq<K>)
    requires GroupedSoFar(s, keyOf, grouped, keys)
    requires keyOf(x) in grouped
    ensures GroupedSoFar(s + [x], keyOf, grouped[keyOf(x) := grouped[keyOf(x)] + [x]], keys)
  {
    GroupSeenKeys(s, x, keyOf, grouped, keys);
    GroupValuesStep(s, x, keyOf, grouped);
  }

  /** An item whose key is already listed leaves the keys as they are. */
  lemma GroupSeenKeys<T, K>(s: seq<T>, x: T, keyOf: T -> K, grouped: map<K, seq<T>>, keys: seq<K>)
    requires grouped.Keys == (set k | k in keys) == KeysOf(s, keyOf)
    requires keyOf(x) in grouped
    ensures grouped[keyOf(x) := grouped[keyOf(x)] + [x]].Keys == (set k | k in keys) == KeysOf(s + [x], keyOf)
  {
    KeysOfSnoc(s, x, keyOf);
  }

  /** Adding an item with a new key: an empty group is created and the item joins it. */
  lemma GroupedOpenedStep<T, K>(s: seq<T>, x: T, keyOf: T -> K, grouped: map<K, seq<T>>, keys: seq<K>)
    requires GroupedSoFar(s, keyOf, grouped, keys)
    requires keyOf(x) !in grouped
    ensures var k := keyOf(x);
            var created := grouped[k := []];
            GroupedSoFar(s + [x], keyOf, created[k := created[k] + [x]], keys + [k])
  {
    GroupOpenedKeys(s, x, keyOf, grouped, keys);
    GroupOpenedValues(s, x, keyOf, grouped);
  }

  /** The key of an item seen for the first time is listed at the end. */
  lemma GroupOpenedKeys<T, K>(s: seq<T>, x: T, keyOf: T -> K, grouped: map<K, seq<T>>, keys: seq<K>)
    requires grouped.Keys == (set k | k in keys) == KeysOf(s, keyOf) && Distinct(keys)
    requires keyOf(x) !in grouped
    ensures var k := keyOf(x);
            var created := grouped[k := []];
            var next := created[k := created[k] + [x]];
            && next.Keys == (set k' | k' in keys + [k]) == KeysOf(s + [x], keyOf)
            && Distinct(keys + [k])
  {
    var k := keyOf(x);
    GroupKeysStep(s, x, keyOf, grouped, keys);
    var created := grouped[k := []];
    var next := created[k := created[k] + [x]];
    assert next.Keys == grouped.Keys + {k};
  }

  /** The group created for a new key holds just the new item; the other groups are unchanged. */
  lemma GroupOpenedValues<T, K>(s: seq<T>, x: T, keyOf: T -> K, grouped: map<K, seq<T>>)
    requires forall k :: k in grouped ==> grouped[k] == Members(s, keyOf, k)
    requires keyOf(x) !in grouped && keyOf(x) !in KeysOf(s, keyOf)
    ensures var k := keyOf(x);
            var created := grouped[k := []];
            var next := created[k := created[k] + [x]];
            forall k' :: k' in next ==> next[k'] == Members(s + [x], keyOf, k')
  {
    var k := keyOf(x);
    MembersAbsent(s, keyOf, k);
    GroupValuesStep(s, x, keyOf, grouped[k := []]);
  }

  /** `GroupedSeenStep` for the item at index `i`, so that the loop advances over a prefix. */
  lemma GroupedSeenAt<T, K>(s: seq<T>, i: nat, keyOf: T -> K, grouped: map<K, seq<T>>, keys: seq<K>)
    requires i < |s| && GroupedSoFar(s[..i], keyOf, grouped, keys)
    requires keyOf(s[i]) in grouped
    ensures GroupedSoFar(s[..i + 1], keyOf, grouped[keyOf(s[i]) := grouped[keyOf(s[i])] + [s[i]]], keys)
  {
    assert s[..i + 1] == s[..i] + [s[i]];
    GroupedSeenStep(s[..i], s[i], keyOf, grouped, keys);
  }

  /** `GroupedOpenedStep` for the item at index `i`. */
  lemma GroupedOpenedAt<T, K>(s: seq<T>, i: nat, keyOf: T -> K, grouped: map<K, seq<T>>, keys: seq<K>)
    requires i < |s| && GroupedSoFar(s[..i], keyOf, grouped, keys)
    requires keyOf(s[i]) !in grouped
    ensures var k := keyOf(s[i]);
            var created := grouped[k := []];
            GroupedSoFar(s[..i + 1], keyOf, created[k := created[k] + [s[i]]], keys + [k])
  {
    assert s[..i + 1] == s[..i] + [s[i]];
    GroupedOpenedStep(s[..i], s[i], keyOf, grouped, keys);
  }

  /** `Object.values` of a dictionary whose own keys, in enumeration order, are `keys`. */
  function Values<K, V>(m: map<K, V>, keys: seq<K>): (r: seq<V>)
    requires forall j :: 0 <= j < |keys| ==> keys[j] in m
    ensures |r| == |keys|
    ensures forall j :: 0 <= j < |keys| ==> r[j] == m[keys[j]]
  {
    seq(|keys|, j requires 0 <= j < |keys| => m[keys[j]])
  }

  /** Each value of the finished dictionary is the non-empty group of its own key. */
  lemma GroupedEntries<T, K>(s: seq<T>, keyOf: T -> K, grouped: map<K, seq<T>>, keys: seq<K>, groups: seq<seq<T>>)
    requires GroupedSoFar(s, keyOf, grouped, keys)
    requires |groups| == |keys| && forall j :: 0 <= j < |keys| ==> keys[j] in grouped && groups[j] == grouped[keys[j]]
    ensures forall j :: 0 <= j < |keys| ==>
      groups[j] != [] && keyOf(groups[j][0]) == keys[j] && groups[j] == Members(s, keyOf, keys[j])
  {
    forall j | 0 <= j < |keys|
      ensures groups[j] != [] && keyOf(groups[j][0]) == keys[j] && groups[j] == Members(s, keyOf, keys[j])
    {
      assert keys[j] in KeysOf(s, keyOf);
      MembersNonEmpty(s, keyOf, keys[j]);
      assert groups[j][0] in groups[j];
    }
  }

  /** Groups indexed like a distinct key list, each led by its key, form a grouping. */
  lemma KeyedGroups<T, K>(s: seq<T>, keyOf: T -> K, keys: seq<K>, groups: seq<seq<T>>)
    requires Distinct(keys) && (set k | k in keys) == KeysOf(s, keyOf)
    requires |groups| == |keys|
    requires forall j :: 0 <= j < |keys| ==>
      groups[j] != [] && keyOf(groups[j][0]) == keys[j] && groups[j] == Members(s, keyOf, keys[j])
    ensures IsGrouping(s, keyOf, groups)
  {
    forall g | g in groups ensures g != [] && g == Members(s, keyOf, keyOf(g[0])) {
      var j :| 0 <= j < |groups| && groups[j] == g;
    }
    assert (set g | g in groups && g != [] :: keyOf(g[0])) == (set k | k in keys) by {
      forall k | k in keys ensures k in (set g | g in groups && g != [] :: keyOf(g[0])) {
        var j :| 0 <= j < |keys| && keys[j] == k;
        assert groups[j] in groups;
      }
      forall k | k in (set g | g in groups && g != [] :: keyOf(g[0])) ensures k in keys {
        var g :| g in groups && g != [] && keyOf(g[0]) == k;
        var j :| 0 <= j < |groups| && groups[j] == g;
      }
    }
  }

  /** Once every item is in, the dictionary's values in key order are a grouping of the input. */
  lemma GroupedDone<T, K>(s: seq<T>, keyOf: T -> K, grouped: map<K, seq<T>>, keys: seq<K>)
    requires GroupedSoFar(s[..|s|], keyOf, grouped, keys)
    ensures forall j :: 0 <= j < |keys| ==> keys[j] in grouped
    ensures IsGrouping(s, keyOf, Values(grouped, keys))
    ensures |Values(grouped, keys)| == |KeysOf(s, keyOf)|
  {
    assert s[..|s|] == s;
    var groups := Values(grouped, keys);
    GroupedEntries(s, keyOf, grouped, keys, groups);
    KeyedGroups(s, keyOf, keys, groups);
    DistinctCardinality(keys);
  }
}
