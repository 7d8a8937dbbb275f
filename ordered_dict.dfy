/**
 * Python dictionaries keep their insertion order, and the analytics returns
 * its groups in that order. A dictionary is modelled as its keys in insertion
 * order together with a map from key to value. `AppendTo` is `d[k].append(v)` on
 * a `defaultdict(list)`, `AddTo` is `d[k] += n` on a `defaultdict(int)`, and
 * `GroupBy` is the grouping loop built from `AppendTo`.
 */
module OrderedDict {

  datatype Dict<K(==), V> = Dict(keys: seq<K>, entries: map<K, V>)

  function Empty<K(==), V>(): Dict<K, V>
  {
    Dict([], map[])
  }

  /** Keys are distinct and are exactly the keys of the map. */
  ghost predicate Valid<K(!new), V>(d: Dict<K, V>)
  {
    (forall i, j :: 0 <= i < j < |d.keys| ==> d.keys[i] != d.keys[j])
    && (forall k :: k in d.entries <==> k in d.keys)
  }

  /** `d[k].append(v)` on a `defaultdict(list)`: a new key goes last. */
  function AppendTo<K(==), V>(d: Dict<K, seq<V>>, k: K, v: V): Dict<K, seq<V>>
  {
    if k in d.entries then Dict(d.keys, d.entries[k := d.entries[k] + [v]])
    else Dict(d.keys + [k], d.entries[k := [v]])
  }

  /** `d[k] += n` on a `defaultdict(int)`: a new key goes last. */
  function AddTo<K(==)>(d: Dict<K, nat>, k: K, n: nat): Dict<K, nat>
  {
    if k in d.entries then Dict(d.keys, d.entries[k := d.entries[k] + n])
    else Dict(d.keys + [k], d.entries[k := n])
  }

  /** Number of values held under `keys`. */
  function SizeOver<K, V>(keys: seq<K>, e: map<K, seq<V>>): nat
    requires forall k :: k in keys ==> k in e
  {
    if keys == [] then 0 else |e[keys[0]]| + SizeOver(keys[1..], e)
  }

  /** Sum of the counters under `keys`. */
  function SumOver<K>(keys: seq<K>, e: map<K, nat>): nat
    requires forall k :: k in keys ==> k in e
  {
    if keys == [] then 0 else e[keys[0]] + SumOver(keys[1..], e)
  }

  function TotalSize<K(==,!new), V>(d: Dict<K, seq<V>>): nat
    requires Valid(d)
  {
    SizeOver(d.keys, d.entries)
  }

  function SumValues<K(==,!new)>(d: Dict<K, nat>): nat
    requires Valid(d)
  {
    SumOver(d.keys, d.entries)
  }

  lemma {:induction false} SizeOverFrame<K, V>(keys: seq<K>, e: map<K, seq<V>>, k: K, w: seq<V>)
    requires forall x :: x in keys ==> x in e
    requires k !in keys
    ensures SizeOver(keys, e[k := w]) == SizeOver(keys, e)
  {
    if keys != [] {
      SizeOverFrame(keys[1..], e, k, w);
    }
  }

  lemma {:induction false} SizeOverAppend<K, V>(keys: seq<K>, e: map<K, seq<V>>, k: K)
    requires forall x :: x in keys ==> x in e
    requires k in e
    ensures SizeOver(keys + [k], e) == SizeOver(keys, e) + |e[k]|
  {
    if keys == [] {
      assert [k][1..] == [];
    } else {
      assert (keys + [k])[1..] == keys[1..] + [k];
      SizeOverAppend(keys[1..], e, k);
    }
  }

  lemma {:induction false} SizeOverUpdate<K, V>(keys: seq<K>, e: map<K, seq<V>>, k: K, w: seq<V>)
    requires forall x :: x in keys ==> x in e
    requires forall i, j :: 0 <= i < j < |keys| ==> keys[i] != keys[j]
    requires k in keys
    ensures SizeOver(keys, e[k := w]) + |e[k]| == SizeOver(keys, e) + |w|
  {
    if keys[0] == k {
      assert k !in keys[1..];
      SizeOverFrame(keys[1..], e, k, w);
    } else {
      SizeOverUpdate(keys[1..], e, k, w);
    }
  }

  lemma {:induction false} SumOverFrame<K>(keys: seq<K>, e: map<K, nat>, k: K, w: nat)
    requires forall x :: x in keys ==> x in e
    requires k !in keys
    ensures SumOver(keys, e[k := w]) == SumOver(keys, e)
  {
    if keys != [] {
      SumOverFrame(keys[1..], e, k, w);
    }
  }

  lemma {:induction false} SumOverAppend<K>(keys: seq<K>, e: map<K, nat>, k: K)
    requires forall x :: x in keys ==> x in e
    requires k in e
    ensures SumOver(keys + [k], e) == SumOver(keys, e) + e[k]
  {
    if keys == [] {
      assert [k][1..] == [];
    } else {
      assert (keys + [k])[1..] == keys[1..] + [k];
      SumOverAppend(keys[1..], e, k);
    }
  }

  lemma {:induction false} SumOverUpdate<K>(keys: seq<K>, e: map<K, nat>, k: K, w: nat)
    requires forall x :: x in keys ==> x in e
    requires forall i, j :: 0 <= i < j < |keys| ==> keys[i] != keys[j]
    requires k in keys
    ensures SumOver(keys, e[k := w]) + e[k] == SumOver(keys, e) + w
  {
    if keys[0] == k {
      assert k !in keys[1..];
      SumOverFrame(keys[1..], e, k, w);
    } else {
      SumOverUpdate(keys[1..], e, k, w);
    }
  }

  /** Counters holding the sizes of the groups sum to the number of grouped values. */
  lemma {:induction false} SumOfSizes<K, V>(keys: seq<K>, e: map<K, seq<V>>, c: map<K, nat>)
    requires forall k :: k in keys ==> k in e && k in c && c[k] == |e[k]|
    ensures SumOver(keys, c) == SizeOver(keys, e)
  {
    if keys != [] {
      SumOfSizes(keys[1..], e, c);
    }
  }

  /** Appending keeps the dictionary well formed and holds one more value. */
  lemma AppendToFacts<K(!new), V>(d: Dict<K, seq<V>>, k: K, v: V)
    requires Valid(d)
    ensures Valid(AppendTo(d, k, v))
    ensures TotalSize(AppendTo(d, k, v)) == TotalSize(d) + 1
  {
    var r := AppendTo(d, k, v);
    if k in d.entries {
      SizeOverUpdate(d.keys, d.entries, k, d.entries[k] + [v]);
    } else {
      SizeOverFrame(d.keys, d.entries, k, [v]);
      SizeOverAppend(d.keys, r.entries, k);
    }
  }

  /** Adding `n` keeps the dictionary well formed and adds `n` to the sum. */
  lemma AddToFacts<K(!new)>(d: Dict<K, nat>, k: K, n: nat)
    requires Valid(d)
    ensures Valid(AddTo(d, k, n))
    ensures SumValues(AddTo(d, k, n)) == SumValues(d) + n
  {
    var r := AddTo(d, k, n);
    if k in d.entries {
      SumOverUpdate(d.keys, d.entries, k, d.entries[k] + n);
    } else {
      SumOverFrame(d.keys, d.entries, k, n);
      SumOverAppend(d.keys, r.entries, k);
    }
  }

  /**
   * The grouping loop over `items`: each item's value is appended to the group
   * of its key. Defined from the back, as the loop extends a prefix.
   */
  function GroupBy<T, K(==,!new), V>(items: seq<T>, key: T -> K, val: T -> V): Dict<K, seq<V>>
  {
    if items == [] then Empty()
    else
      var n := |items| - 1;
      AppendTo(GroupBy(items[..n], key, val), key(items[n]), val(items[n]))
  }

  /** The values of the items carrying key `k`, in item order. */
  function ValuesWithKey<T, K(==), V>(items: seq<T>, key: T -> K, val: T -> V, k: K): seq<V>
  {
    if items == [] then []
    else
      var n := |items| - 1;
      ValuesWithKey(items[..n], key, val, k) + (if key(items[n]) == k then [val(items[n])] else [])
  }

  /**
   * What a grouping holds: a well-formed dictionary whose keys are exactly the
   * keys that occur, each mapped to the values of its items in order, and every
   * item counted in exactly one group.
   */
  lemma {:induction false} GroupByFacts<T, K(!new), V>(items: seq<T>, key: T -> K, val: T -> V)
    ensures Valid(GroupBy(items, key, val))
    ensures TotalSize(GroupBy(items, key, val)) == |items|
    ensures forall k :: k in GroupBy(items, key, val).entries <==> exists i :: 0 <= i < |items| && key(items[i]) == k
    ensures forall k :: k in GroupBy(items, key, val).entries ==>
      GroupBy(items, key, val).entries[k] == ValuesWithKey(items, key, val, k)
  {
    if items != [] {
      var n := |items| - 1;
      var pre := items[..n];
      GroupByFacts(pre, key, val);
      var g := GroupBy(pre, key, val);
      AppendToFacts(g, key(items[n]), val(items[n]));
      var r := GroupBy(items, key, val);
      forall k ensures k in r.entries <==> exists i :: 0 <= i < |items| && key(items[i]) == k {
        if k in r.entries && k != key(items[n]) {
          var i :| 0 <= i < |pre| && key(pre[i]) == k;
          assert items[i] == pre[i];
        }
        if exists i :: 0 <= i < |items| && key(items[i]) == k {
          var i :| 0 <= i < |items| && key(items[i]) == k;
          if i < n {
            assert pre[i] == items[i];
          }
        }
      }
      forall k | k in r.entries ensures r.entries[k] == ValuesWithKey(items, key, val, k) {
        if k == key(items[n]) && k !in g.entries {
          ValuesWithKeyAbsent(pre, key, val, k);
        }
      }
    }
  }

  lemma {:induction false} ValuesWithKeyAbsent<T, K, V>(items: seq<T>, key: T -> K, val: T -> V, k: K)
    requires forall i :: 0 <= i < |items| ==> key(items[i]) != k
    ensures ValuesWithKey(items, key, val, k) == []
  {
    if items != [] {
      var n := |items| - 1;
      ValuesWithKeyAbsent(items[..n], key, val, k);
    }
  }

  /** Every group holds at least one value. */
  lemma GroupsNonEmpty<T, K(!new), V>(items: seq<T>, key: T -> K, val: T -> V, k: K)
    requires k in GroupBy(items, key, val).entries
    ensures |GroupBy(items, key, val).entries[k]| > 0
  {
    GroupByFacts(items, key, val);
    var i :| 0 <= i < |items| && key(items[i]) == k;
    ValuesWithKeyPresent(items, key, val, i);
  }

  lemma {:induction false} ValuesWithKeyPresent<T, K, V>(items: seq<T>, key: T -> K, val: T -> V, i: nat)
    requires i < |items|
    ensures val(items[i]) in ValuesWithKey(items, key, val, key(items[i]))
  {
    var n := |items| - 1;
    if i < n {
      assert items[..n][i] == items[i];
      ValuesWithKeyPresent(items[..n], key, val, i);
    }
  }
}
