/** A lookup result: JavaScript's `T | undefined`, and zod's absent optional field. */
module Optional {
  datatype Option<T> = None | Some(value: T)
}

/**
  A model of the JavaScript `Map`: a table from keys to values together with
  the order in which keys were first inserted. `set` on a key already present
  replaces its value in place (the key keeps its position), `set` on a new key
  appends it, `delete` removes it, and `values()` iterates in insertion order.
 */
module OrderedMaps {
  import opened Optional

  /** The raw representation: the insertion order of the keys and the key/value table. */
  datatype MapData<K, V> = MapData(order: seq<K>, table: map<K, V>)

  predicate Distinct<K(==)>(ks: seq<K>) {
    forall i, j :: 0 <= i < j < |ks| ==> ks[i] != ks[j]
  }

  /** No key is listed twice, and the listed keys are exactly the table's keys. */
  ghost predicate Valid<K(!new), V>(m: MapData<K, V>) {
    && Distinct(m.order)
    && (forall k :: k in m.table <==> k in m.order)
  }

  /** A JavaScript `Map`: every value of this type satisfies `Valid`. */
  type OrderedMap<K(!new), V> = m: MapData<K, V> | Valid(m) witness MapData([], map[])

  function Empty<K(==, !new), V>(): OrderedMap<K, V> {
    MapData([], map[])
  }

  /** `Map.prototype.get`. */
  function Get<K(==, !new), V>(m: OrderedMap<K, V>, k: K): Option<V> {
    if k in m.table then Some(m.table[k]) else None
  }

  /** `Map.prototype.set`: a present key keeps its position, a new key goes last. */
  function Set<K(==, !new), V>(m: OrderedMap<K, V>, k: K, v: V): (r: OrderedMap<K, V>)
    ensures Get(r, k) == Some(v)
    ensures forall j :: j != k ==> Get(r, j) == Get(m, j)
    ensures k in m.table ==> r.order == m.order
    ensures k !in m.table ==> r.order == m.order + [k]
  {
    if k in m.table then MapData(m.order, m.table[k := v])
    else
      var r := MapData(m.order + [k], m.table[k := v]);
      assert Distinct(r.order) by {
        assert k !in m.order;
      }
      r
  }

  /** The keys of `ks` other than `k`, in their original order. */
  function Remove<K(==, !new)>(ks: seq<K>, k: K): (r: seq<K>)
    ensures forall j :: j in r <==> j in ks && j != k
    ensures k !in ks ==> r == ks
  {
    if |ks| == 0 then []
    else if ks[0] == k then Remove(ks[1..], k)
    else [ks[0]] + Remove(ks[1..], k)
  }

  /** Removing a key from a list without repetitions leaves a list without repetitions. */
  lemma {:induction false} RemoveKeepsDistinct<K(!new)>(ks: seq<K>, k: K)
    requires Distinct(ks)
    ensures Distinct(Remove(ks, k))
  {
    if |ks| > 0 {
      var tail := ks[1..];
      assert Distinct(tail) by {
        forall i, j | 0 <= i < j < |tail| ensures tail[i] != tail[j] {
          assert tail[i] == ks[i + 1] && tail[j] == ks[j + 1];
        }
      }
      RemoveKeepsDistinct(tail, k);
      if ks[0] != k {
        var rest := Remove(tail, k);
        assert ks[0] !in tail by {
          forall i | 0 <= i < |tail| ensures tail[i] != ks[0] {
            assert tail[i] == ks[i + 1];
          }
        }
        assert ks[0] !in rest;
        var r := [ks[0]] + rest;
        forall i, j | 0 <= i < j < |r| ensures r[i] != r[j] {
          if i == 0 {
            assert r[j] == rest[j - 1];
            assert rest[j - 1] in rest;
          } else {
            assert r[i] == rest[i - 1] && r[j] == rest[j - 1];
          }
        }
      }
    }
  }

  /** Removing from a concatenation removes from each part: the kept keys stay in their original order. */
  lemma {:induction false} RemoveConcat<K(!new)>(a: seq<K>, b: seq<K>, k: K)
    ensures Remove(a + b, k) == Remove(a, k) + Remove(b, k)
    decreases |a|
  {
    if |a| == 0 {
      assert a + b == b;
    } else {
      assert (a + b)[0] == a[0] && (a + b)[1..] == a[1..] + b;
      RemoveConcat(a[1..], b, k);
      if a[0] != k {
        assert [a[0]] + (Remove(a[1..], k) + Remove(b, k)) == ([a[0]] + Remove(a[1..], k)) + Remove(b, k);
      }
    }
  }

  /** `Map.prototype.delete`: the new map, and whether `k` was present. */
  function Delete<K(==, !new), V>(m: OrderedMap<K, V>, k: K): (r: (OrderedMap<K, V>, bool))
    ensures r.1 <==> k in m.table
    ensures Get(r.0, k) == None
    ensures forall j :: j != k ==> Get(r.0, j) == Get(m, j)
    ensures !r.1 ==> r.0 == m
    ensures r.1 ==> r.0.order == Remove(m.order, k)
  {
    if k in m.table then
      var order := Remove(m.order, k);
      RemoveKeepsDistinct(m.order, k);
      (MapData(order, m.table - {k}), true)
    else (m, false)
  }

  /** Removing a key listed once, between keys that are not it, leaves the keys around it in order. */
  lemma RemoveMiddle<K(!new)>(before: seq<K>, k: K, after: seq<K>)
    requires k !in before && k !in after
    ensures Remove(before + [k] + after, k) == before + after
  {
    var ab := Remove(before, k);
    var aa := Remove(after, k);
    assert ab == before && aa == after;
    assert [k][1..] == [];
    var ak := Remove([k], k);
    assert ak == [];
    RemoveConcat(before, [k], k);
    RemoveConcat(before + [k], after, k);
    assert before + [] == before;
  }

  /**
    Deleting a key listed between the keys `before` and the keys `after`
    leaves exactly `before` followed by `after`: the remaining keys keep
    their iteration order.
   */
  lemma DeleteKeepsOrder<K(!new), V>(m: OrderedMap<K, V>, before: seq<K>, k: K, after: seq<K>)
    requires m.order == before + [k] + after
    ensures Delete(m, k).1
    ensures Delete(m, k).0.order == before + after
  {
    var ks := m.order;
    assert ks[|before|] == k;
    assert k !in before by {
      forall i | 0 <= i < |before| ensures before[i] != k {
        assert ks[i] == before[i];
      }
    }
    assert k !in after by {
      forall i | 0 <= i < |after| ensures after[i] != k {
        assert ks[|before| + 1 + i] == after[i];
      }
    }
    RemoveMiddle(before, k, after);
  }

  /** `Array.from(map.values())`: the stored values in insertion order. */
  function Values<K(==, !new), V>(m: OrderedMap<K, V>): (vs: seq<V>)
    ensures |vs| == |m.order|
    ensures forall i :: 0 <= i < |m.order| ==> vs[i] == m.table[m.order[i]]
  {
    seq(|m.order|, i requires 0 <= i < |m.order| => m.table[m.order[i]])
  }

  /** Every value listed by `values()` is stored under some key, returned as `k`. */
  lemma ListedValueIsStored<K(!new), V>(m: OrderedMap<K, V>, v: V) returns (k: K)
    requires v in Values(m)
    ensures k in m.table && m.table[k] == v
  {
    var i :| 0 <= i < |Values(m)| && Values(m)[i] == v;
    k := m.order[i];
  }

  /** Every stored value is listed by `values()`. */
  lemma StoredValueIsListed<K(!new), V>(m: OrderedMap<K, V>, k: K)
    requires k in m.table
    ensures m.table[k] in Values(m)
  {
    assert k in m.order;
    var i :| 0 <= i < |m.order| && m.order[i] == k;
    assert Values(m)[i] == m.table[k];
  }

  /** Setting a fresh key appends its value to `values()`. */
  lemma ValuesSetFresh<K(!new), V>(m: OrderedMap<K, V>, k: K, v: V)
    requires k !in m.table
    ensures Values(Set(m, k, v)) == Values(m) + [v]
  {
    var before, after := Values(m), Values(Set(m, k, v));
    assert |after| == |before| + 1;
    forall i | 0 <= i < |after| ensures after[i] == (before + [v])[i] {
      if i < |m.order| {
        assert m.order[i] in m.table;
      }
    }
  }

  /** Setting a present key, listed at `idx`, replaces its value in place in `values()`. */
  lemma ValuesSetPresent<K(!new), V>(m: OrderedMap<K, V>, k: K, v: V, idx: nat)
    requires idx < |m.order| && m.order[idx] == k
    ensures Values(Set(m, k, v)) == Values(m)[idx := v]
  {
    var before, after := Values(m), Values(Set(m, k, v));
    assert k in m.table;
    forall i | 0 <= i < |after| ensures after[i] == before[idx := v][i] {
      if i != idx {
        assert m.order[i] != k;
      }
    }
  }
}
