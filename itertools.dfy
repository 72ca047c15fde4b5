/** `itertools.py`: lining up the entries of several dicts, or the items of several
    iterables, by key.  Both helpers yield each key once, in the order it is first seen, with
    one slot per input. */
module Itertools {

  /** A Python dict: its keys in insertion order, and its entries. */
  datatype Dict<K(==), V> = Dict(order: seq<K>, items: map<K, V>)

  /** What every Python dict satisfies: its order lists each of its keys exactly once. */
  ghost predicate WellFormed<K(!new), V>(d: Dict<K, V>) {
    && (forall i, j :: 0 <= i < j < |d.order| ==> d.order[i] != d.order[j])
    && (forall k :: k in d.order <==> k in d.items)
  }

  /** `d.get(k, default)`. */
  function Get<K(==), V>(d: Dict<K, V>, k: K, default: V): V {
    if k in d.items then d.items[k] else default
  }

  // ---------------------------------------------------------------------------------------
  // First-appearance order
  // ---------------------------------------------------------------------------------------

  /** The elements of `s` without repeats, each kept where it first occurs. */
  function Dedup<K(==)>(s: seq<K>): (r: seq<K>)
    ensures forall i :: 0 <= i < |r| ==> r[i] in s
    ensures forall i :: 0 <= i < |s| ==> s[i] in r
    decreases |s|
  {
    if s == [] then []
    else
      assert s == s[..|s| - 1] + [s[|s| - 1]];
      var p := Dedup(s[..|s| - 1]);
      if s[|s| - 1] in p then p else p + [s[|s| - 1]]
  }

  /** Dedup never repeats an element. */
  lemma {:induction false} DedupDistinct<K>(s: seq<K>)
    ensures forall i, j :: 0 <= i < j < |Dedup(s)| ==> Dedup(s)[i] != Dedup(s)[j]
    decreases |s|
  {
    if s != [] {
      DedupDistinct(s[..|s| - 1]);
    }
  }

  /** One more element extends the deduplicated list exactly when it is new. */
  lemma DedupSnoc<K>(s: seq<K>, x: K)
    ensures Dedup(s + [x]) == if x in s then Dedup(s) else Dedup(s) + [x]
  {
    assert (s + [x])[..|s|] == s;
  }

  /** Where `x` first occurs in `s`. */
  function FirstIndex<K(==)>(s: seq<K>, x: K): (i: nat)
    requires x in s
    ensures i < |s| && s[i] == x
    ensures forall j :: 0 <= j < i ==> s[j] != x
  {
    if s[0] == x then 0 else 1 + FirstIndex(s[1..], x)
  }

  lemma {:induction false} FirstIndexSnoc<K>(s: seq<K>, x: K, y: K)
    requires y in s
    ensures FirstIndex(s + [x], y) == FirstIndex(s, y)
  {
    var i := FirstIndex(s, y);
    var k := FirstIndex(s + [x], y);
    assert (s + [x])[i] == y;
  }

  /** Dedup lists the elements in the order of their first occurrence. */
  lemma {:induction false} DedupFirstOrder<K>(s: seq<K>)
    ensures forall i, j :: 0 <= i < j < |Dedup(s)| ==> FirstIndex(s, Dedup(s)[i]) < FirstIndex(s, Dedup(s)[j])
    decreases |s|
  {
    if s != [] {
      var front, x := s[..|s| - 1], s[|s| - 1];
      assert s == front + [x];
      DedupFirstOrder(front);
      var p := Dedup(front);
      forall i, j | 0 <= i < j < |Dedup(s)|
        ensures FirstIndex(s, Dedup(s)[i]) < FirstIndex(s, Dedup(s)[j])
      {
        FirstIndexSnoc(front, x, p[i]);
        if j < |p| {
          FirstIndexSnoc(front, x, p[j]);
        } else {
          assert Dedup(s)[j] == x && x !in front;
          assert FirstIndex(s, x) == |front|;
        }
      }
    }
  }

  /** Growing a prefix by one element. */
  lemma SliceSnoc<T>(before: seq<T>, s: seq<T>, j: nat)
    requires j < |s|
    ensures s[..j + 1] == s[..j] + [s[j]]
    ensures before + s[..j + 1] == (before + s[..j]) + [s[j]]
  {
    assert s[..j + 1] == s[..j] + [s[j]];
  }

  // ---------------------------------------------------------------------------------------
  // dict_matching
  // ---------------------------------------------------------------------------------------

  /** The keys of the dicts, dict after dict, each dict in its own order. */
  function AllKeys<K(==), V>(ds: seq<Dict<K, V>>): seq<K> {
    if ds == [] then [] else AllKeys(ds[..|ds| - 1]) + ds[|ds| - 1].order
  }

  /** `[od.get(key, default) for od in dicts]`. */
  function Row<K(==), V>(dicts: seq<Dict<K, V>>, k: K, default: V): (r: seq<V>)
    ensures |r| == |dicts|
    ensures forall t :: 0 <= t < |dicts| ==> r[t] == Get(dicts[t], k, default)
  {
    seq(|dicts|, t requires 0 <= t < |dicts| => Get(dicts[t], k, default))
  }

  /** The keys of a list of yielded pairs. */
  function Firsts<K(==), W>(s: seq<(K, W)>): (r: seq<K>)
    ensures |r| == |s|
    ensures forall x :: 0 <= x < |s| ==> r[x] == s[x].0
  {
    if s == [] then [] else Firsts(s[..|s| - 1]) + [s[|s| - 1].0]
  }

  /** The loop's state once the keys `keys` have been scanned: `seen` holds them, and one
      row was yielded per new key. */
  ghost predicate Scanned<K(!new), V>(dicts: seq<Dict<K, V>>, default: V, keys: seq<K>,
                                      seen: set<K>, out: seq<(K, seq<V>)>)
  {
    && Firsts(out) == Dedup(keys)
    && (forall k :: k in seen <==> k in keys)
    && (forall x :: 0 <= x < |out| ==> out[x].1 == Row(dicts, out[x].0, default))
  }

  lemma ScanStep<K(!new), V>(dicts: seq<Dict<K, V>>, default: V, keys: seq<K>,
                             seen: set<K>, out: seq<(K, seq<V>)>, key: K)
    requires Scanned(dicts, default, keys, seen, out)
    ensures key in seen ==> Scanned(dicts, default, keys + [key], seen, out)
    ensures key !in seen ==>
      Scanned(dicts, default, keys + [key], seen + {key}, out + [(key, Row(dicts, key, default))])
  {
    DedupSnoc(keys, key);
  }

  /** `dict_matching(*dicts, default=default)`: every key of every dict once, in order of
      first appearance (scanning the dicts in argument order), each with the row of its values
      across all the dicts. */
  method DictMatching<K(==,!new), V>(dicts: seq<Dict<K, V>>, default: V) returns (out: seq<(K, seq<V>)>)
    requires forall t :: 0 <= t < |dicts| ==> WellFormed(dicts[t])
    ensures Firsts(out) == Dedup(AllKeys(dicts))
    ensures forall k :: k in Firsts(out) <==> exists t :: 0 <= t < |dicts| && k in dicts[t].items
    ensures forall x :: 0 <= x < |out| ==> out[x].1 == Row(dicts, out[x].0, default)
  {
    var seen: set<K> := {};
    out := [];
    for i := 0 to |dicts|
      invariant Scanned(dicts, default, AllKeys(dicts[..i]), seen, out)
    {
      var d := dicts[i];
      ghost var before := AllKeys(dicts[..i]);
      assert before + d.order[..0] == before;
      for j := 0 to |d.order|
        invariant Scanned(dicts, default, before + d.order[..j], seen, out)
      {
        var key := d.order[j];
        SliceSnoc(before, d.order, j);
        ScanStep(dicts, default, before + d.order[..j], seen, out, key);
        if key !in seen {
          seen := seen + {key};
          out := out + [(key, Row(dicts, key, default))];
        }
      }
      AllKeysSnoc(dicts, i);
    }
    assert dicts[..|dicts|] == dicts;
    MatchedKeys(dicts, Firsts(out));
  }

  /** Dedup keeps every element and adds none. */
  lemma DedupMembers<K>(s: seq<K>, x: K)
    ensures x in Dedup(s) <==> x in s
  {
    if x in s {
      var i :| 0 <= i < |s| && s[i] == x;
    }
    if x in Dedup(s) {
      var i :| 0 <= i < |Dedup(s)| && Dedup(s)[i] == x;
    }
  }

  /** The deduplicated keys are exactly the keys of the dicts. */
  lemma MatchedKeys<K(!new), V>(ds: seq<Dict<K, V>>, keys: seq<K>)
    requires forall t :: 0 <= t < |ds| ==> WellFormed(ds[t])
    requires keys == Dedup(AllKeys(ds))
    ensures forall k :: k in keys <==> exists t :: 0 <= t < |ds| && k in ds[t].items
  {
    AllKeysMembers(ds);
    forall k ensures k in keys <==> k in AllKeys(ds) {
      DedupMembers(AllKeys(ds), k);
    }
  }

  /** Every key of every well-formed dict is among the keys, and nothing else is. */
  lemma {:induction false} AllKeysMembers<K(!new), V>(ds: seq<Dict<K, V>>)
    requires forall t :: 0 <= t < |ds| ==> WellFormed(ds[t])
    ensures forall k :: k in AllKeys(ds) <==> exists t :: 0 <= t < |ds| && k in ds[t].items
    decreases |ds|
  {
    if ds != [] {
      var front := ds[..|ds| - 1];
      AllKeysMembers(front);
      forall k ensures k in AllKeys(ds) <==> exists t :: 0 <= t < |ds| && k in ds[t].items {
        if k in AllKeys(ds) {
          if k in AllKeys(front) {
            var t :| 0 <= t < |front| && k in front[t].items;
            assert ds[t] == front[t];
          } else {
            assert k in ds[|ds| - 1].items;
          }
        } else {
          forall t | 0 <= t < |ds| ensures k !in ds[t].items {
            if t < |front| {
              assert ds[t] == front[t];
            }
          }
        }
      }
    }
  }

  lemma AllKeysSnoc<K, V>(dicts: seq<Dict<K, V>>, i: nat)
    requires i < |dicts|
    ensures AllKeys(dicts[..i + 1]) == AllKeys(dicts[..i]) + dicts[i].order[..|dicts[i].order|]
  {
    assert dicts[..i + 1][..i] == dicts[..i];
    assert dicts[i].order[..|dicts[i].order|] == dicts[i].order;
  }

  // ---------------------------------------------------------------------------------------
  // iter_matching
  // ---------------------------------------------------------------------------------------

  /** `[key(item) for item in items]`. */
  function ItemKeys<K(==), V>(items: seq<V>, key: V -> K): (r: seq<K>)
    ensures |r| == |items|
  {
    if items == [] then [] else ItemKeys(items[..|items| - 1], key) + [key(items[|items| - 1])]
  }

  /** The keys of the iterables' items, iterable after iterable. */
  function AllItemKeys<K(==), V>(iters: seq<seq<V>>, key: V -> K): seq<K> {
    if iters == [] then [] else AllItemKeys(iters[..|iters| - 1], key) + ItemKeys(iters[|iters| - 1], key)
  }

  /** The last item of `items` with key `k`, or `default` when there is none. */
  function Last<K(==), V>(items: seq<V>, key: V -> K, k: K, default: V): V {
    if items == [] then default
    else if key(items[|items| - 1]) == k then items[|items| - 1]
    else Last(items[..|items| - 1], key, k, default)
  }

  /** Last picks the item with key `k` that no later item with key `k` follows, and falls
      back to `default` only when no item has key `k`. */
  lemma {:induction false} LastIsLatest<K, V>(items: seq<V>, key: V -> K, k: K, default: V)
    ensures k in ItemKeys(items, key) ==>
      exists i :: 0 <= i < |items| && key(items[i]) == k && Last(items, key, k, default) == items[i]
        && forall j :: i < j < |items| ==> key(items[j]) != k
    ensures k !in ItemKeys(items, key) ==> Last(items, key, k, default) == default
    decreases |items|
  {
    if items != [] {
      var front := items[..|items| - 1];
      LastIsLatest(front, key, k, default);
      var n := |items| - 1;
      if key(items[n]) == k {
        assert ItemKeys(items, key)[n] == k;
      } else if k in ItemKeys(items, key) {
        assert k in ItemKeys(front, key);
        var i :| 0 <= i < |front| && key(front[i]) == k && Last(front, key, k, default) == front[i]
          && forall j :: i < j < |front| ==> key(front[j]) != k;
        assert items[i] == front[i];
      }
    }
  }

  /** What the defaultdict holds for key `k` once the items before position `j` of
      iterable `i` have been filed. */
  function Slots<K(==), V>(iters: seq<seq<V>>, key: V -> K, default: V, k: K, i: nat, j: nat): (r: seq<V>)
    requires i <= |iters| && (i < |iters| ==> j <= |iters[i]|)
    ensures |r| == |iters|
  {
    seq(|iters|, t requires 0 <= t < |iters| =>
      if t < i then Last(iters[t], key, k, default)
      else if t == i then Last(iters[i][..j], key, k, default)
      else default)
  }

  /** The keys filed so far. */
  function Filed<K(==), V>(iters: seq<seq<V>>, key: V -> K, i: nat, j: nat): seq<K>
    requires i < |iters| && j <= |iters[i]|
  {
    AllItemKeys(iters[..i], key) + ItemKeys(iters[i][..j], key)
  }

  lemma SlotsStep<K, V>(iters: seq<seq<V>>, key: V -> K, default: V, k: K, i: nat, j: nat)
    requires i < |iters| && j < |iters[i]|
    ensures Slots(iters, key, default, k, i, j + 1) ==
      if k == key(iters[i][j]) then Slots(iters, key, default, k, i, j)[i := iters[i][j]]
      else Slots(iters, key, default, k, i, j)
  {
    assert iters[i][..j + 1][..j] == iters[i][..j];
  }

  lemma SlotsNext<K, V>(iters: seq<seq<V>>, key: V -> K, default: V, k: K, i: nat)
    requires i < |iters|
    ensures Slots(iters, key, default, k, i, |iters[i]|) == Slots(iters, key, default, k, i + 1, 0)
  {
    assert iters[i][..|iters[i]|] == iters[i];
    if i + 1 < |iters| {
      assert Last(iters[i + 1][..0], key, k, default) == default;
    }
  }

  lemma {:induction false} AllItemKeysAbsent<K, V>(iters: seq<seq<V>>, key: V -> K, default: V, k: K)
    requires k !in AllItemKeys(iters, key)
    ensures forall t :: 0 <= t < |iters| ==> Last(iters[t], key, k, default) == default
    decreases |iters|
  {
    if iters != [] {
      var n := |iters| - 1;
      AllItemKeysAbsent(iters[..n], key, default, k);
      LastIsLatest(iters[n], key, k, default);
      forall t | 0 <= t < n ensures Last(iters[t], key, k, default) == default {
        assert iters[..n][t] == iters[t];
      }
    }
  }

  /** A key not filed yet has nothing but defaults. */
  lemma SlotsAbsent<K, V>(iters: seq<seq<V>>, key: V -> K, default: V, k: K, i: nat, j: nat)
    requires i < |iters| && j <= |iters[i]|
    requires k !in Filed(iters, key, i, j)
    ensures Slots(iters, key, default, k, i, j) == seq(|iters|, _ => default)
  {
    AllItemKeysAbsent(iters[..i], key, default, k);
    LastIsLatest(iters[i][..j], key, k, default);
    forall t | 0 <= t < i ensures Last(iters[t], key, k, default) == default {
      assert iters[..i][t] == iters[t];
    }
  }

  /** The loop's state after the items before position `j` of iterable `i` are filed. */
  ghost predicate Filing<K(!new), V>(iters: seq<seq<V>>, key: V -> K, default: V, i: nat, j: nat,
                         order: seq<K>, byKey: map<K, seq<V>>)
    requires i < |iters| && j <= |iters[i]|
  {
    && order == Dedup(Filed(iters, key, i, j))
    && (forall k :: k in byKey <==> k in order)
    && (forall k :: k in byKey ==> byKey[k] == Slots(iters, key, default, k, i, j))
  }

  /** The defaultdict after `by_key[k][i] = item`. */
  function FiledRow<K, V>(byKey: map<K, seq<V>>, k: K, i: nat, item: V, n: nat, default: V): map<K, seq<V>>
    requires i < n && (k in byKey ==> |byKey[k]| == n)
  {
    var row := if k in byKey then byKey[k] else seq(n, _ => default);
    byKey[k := row[i := item]]
  }

  /** Filing the next item extends the key order exactly when its key is new. */
  lemma FilingOrderStep<K(!new), V>(iters: seq<seq<V>>, key: V -> K, default: V, i: nat, j: nat,
                                    order: seq<K>, byKey: map<K, seq<V>>)
    requires i < |iters| && j < |iters[i]|
    requires Filing(iters, key, default, i, j, order, byKey)
    ensures var k := key(iters[i][j]);
      var order' := if k in byKey then order else order + [k];
      && order' == Dedup(Filed(iters, key, i, j + 1))
      && (forall k' :: k' in FiledRow(byKey, k, i, iters[i][j], |iters|, default) <==> k' in order')
  {
    var k := key(iters[i][j]);
    SliceSnoc([], iters[i], j);
    assert Filed(iters, key, i, j + 1) == Filed(iters, key, i, j) + [k];
    DedupSnoc(Filed(iters, key, i, j), k);
  }

  /** Filing the next item writes it into its key's row, leaving every other row alone. */
  lemma FilingRowsStep<K(!new), V>(iters: seq<seq<V>>, key: V -> K, default: V, i: nat, j: nat,
                                   order: seq<K>, byKey: map<K, seq<V>>)
    requires i < |iters| && j < |iters[i]|
    requires Filing(iters, key, default, i, j, order, byKey)
    ensures var byKey' := FiledRow(byKey, key(iters[i][j]), i, iters[i][j], |iters|, default);
      forall k' :: k' in byKey' ==> byKey'[k'] == Slots(iters, key, default, k', i, j + 1)
  {
    var item := iters[i][j];
    var k := key(item);
    if k !in byKey {
      assert k !in Filed(iters, key, i, j);
      SlotsAbsent(iters, key, default, k, i, j);
    }
    var byKey' := FiledRow(byKey, k, i, item, |iters|, default);
    forall k' | k' in byKey' ensures byKey'[k'] == Slots(iters, key, default, k', i, j + 1) {
      SlotsStep(iters, key, default, k', i, j);
    }
  }

  /** Filing one item: `by_key[key(item)][i] = item`, the defaultdict creating a row of
      defaults for a new key. */
  method FileItem<K(==,!new), V>(iters: seq<seq<V>>, key: V -> K, default: V, i: nat, j: nat,
                        order: seq<K>, byKey: map<K, seq<V>>)
    returns (order': seq<K>, byKey': map<K, seq<V>>)
    requires i < |iters| && j < |iters[i]|
    requires Filing(iters, key, default, i, j, order, byKey)
    ensures Filing(iters, key, default, i, j + 1, order', byKey')
  {
    var item := iters[i][j];
    var k := key(item);
    FilingOrderStep(iters, key, default, i, j, order, byKey);
    FilingRowsStep(iters, key, default, i, j, order, byKey);
    order', byKey' := order, byKey;
    if k !in byKey' {
      byKey' := byKey'[k := seq(|iters|, _ => default)];
      order' := order' + [k];
    }
    byKey' := byKey'[k := byKey'[k][i := item]];
    assert byKey' == FiledRow(byKey, k, i, item, |iters|, default);
  }

  /** The loop's state after the first `i` iterables are filed. */
  ghost predicate FiledThrough<K(!new), V>(iters: seq<seq<V>>, key: V -> K, default: V, i: nat,
                                           order: seq<K>, byKey: map<K, seq<V>>)
    requires i <= |iters|
  {
    && order == Dedup(AllItemKeys(iters[..i], key))
    && (forall k :: k in byKey <==> k in order)
    && (forall k :: k in byKey ==> byKey[k] == Slots(iters, key, default, k, i, 0))
  }

  /** Starting on iterable `i` is filing its first zero items. */
  lemma FilingStart<K(!new), V>(iters: seq<seq<V>>, key: V -> K, default: V, i: nat,
                                order: seq<K>, byKey: map<K, seq<V>>)
    requires i < |iters| && FiledThrough(iters, key, default, i, order, byKey)
    ensures Filing(iters, key, default, i, 0, order, byKey)
  {
    assert iters[i][..0] == [];
    assert Filed(iters, key, i, 0) == AllItemKeys(iters[..i], key);
  }

  /** Having filed every item of iterable `i` is having filed the first `i + 1` iterables. */
  lemma FilingEnd<K(!new), V>(iters: seq<seq<V>>, key: V -> K, default: V, i: nat,
                              order: seq<K>, byKey: map<K, seq<V>>)
    requires i < |iters| && Filing(iters, key, default, i, |iters[i]|, order, byKey)
    ensures FiledThrough(iters, key, default, i + 1, order, byKey)
  {
    assert iters[..i + 1][..i] == iters[..i];
    assert iters[i][..|iters[i]|] == iters[i];
    forall k | k in byKey ensures byKey[k] == Slots(iters, key, default, k, i + 1, 0) {
      SlotsNext(iters, key, default, k, i);
    }
  }

  /** `iter_matching(*iters, key=key, default=default)`: every key of every item once, in
      order of first appearance, each with one slot per iterable holding the last item of that
      iterable with the key, or `default`. */
  method IterMatching<K(==,!new), V>(iters: seq<seq<V>>, key: V -> K, default: V) returns (out: seq<(K, seq<V>)>)
    ensures Firsts(out) == Dedup(AllItemKeys(iters, key))
    ensures forall x :: 0 <= x < |out| ==> |out[x].1| == |iters|
    ensures forall x, t :: 0 <= x < |out| && 0 <= t < |iters| ==>
      out[x].1[t] == Last(iters[t], key, out[x].0, default)
  {
    var order: seq<K> := [];
    var byKey: map<K, seq<V>> := map[];
    for i := 0 to |iters|
      invariant FiledThrough(iters, key, default, i, order, byKey)
    {
      FilingStart(iters, key, default, i, order, byKey);
      for j := 0 to |iters[i]|
        invariant Filing(iters, key, default, i, j, order, byKey)
      {
        order, byKey := FileItem(iters, key, default, i, j, order, byKey);
      }
      FilingEnd(iters, key, default, i, order, byKey);
    }
    assert iters[..|iters|] == iters;
    out := seq(|order|, x requires 0 <= x < |order| => (order[x], byKey[order[x]]));
  }
}
