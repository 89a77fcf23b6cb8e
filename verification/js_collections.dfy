/** JavaScript `Map` and `Set`: keyed collections that iterate in insertion
    order. Setting an existing key keeps its position; deleting forgets it. */
module JsCollections {
  import opened Wrappers

  predicate NoDup<K(==)>(s: seq<K>)
  {
    forall i, j :: 0 <= i < j < |s| ==> s[i] != s[j]
  }

  /** `r` is `s` with some elements left out, the rest in their order. */
  predicate Subsequence<E(==)>(r: seq<E>, s: seq<E>)
    decreases |s|
  {
    if |r| == 0 then true
    else if |s| == 0 then false
    else if r[0] == s[0] then Subsequence(r[1..], s[1..])
    else Subsequence(r, s[1..])
  }

  /** `s` without its occurrences of `x`, the rest in order. */
  function Remove<K(==,!new)>(s: seq<K>, x: K): (r: seq<K>)
    ensures forall y :: y in r <==> y in s && y != x
    ensures NoDup(s) ==> NoDup(r)
    ensures x !in s ==> r == s
    ensures |r| <= |s|
    ensures NoDup(s) && x in s ==> |r| == |s| - 1
  {
    if |s| == 0 then []
    else
      var rest := Remove(s[1..], x);
      assert NoDup(s) ==> NoDup(s[1..]) && s[0] !in s[1..] by {
        if NoDup(s) {
          forall i, j | 0 <= i < j < |s[1..]| ensures s[1..][i] != s[1..][j] {
            assert s[1..][i] == s[i + 1] && s[1..][j] == s[j + 1];
          }
          forall i | 0 <= i < |s[1..]| ensures s[1..][i] != s[0] {
            assert s[1..][i] == s[i + 1];
          }
        }
      }
      if s[0] == x then rest
      else
        assert NoDup(s) ==> NoDup([s[0]] + rest) by {
          if NoDup(s) {
            forall i, j | 0 <= i < j < |[s[0]] + rest| ensures ([s[0]] + rest)[i] != ([s[0]] + rest)[j] {
              if i == 0 {
                assert ([s[0]] + rest)[j] == rest[j - 1];
                assert rest[j - 1] in rest;
              } else {
                assert ([s[0]] + rest)[i] == rest[i - 1];
                assert ([s[0]] + rest)[j] == rest[j - 1];
              }
            }
          }
        }
        [s[0]] + rest
  }

  /** A JavaScript `Map`: `order` is the iteration order of the keys. */
  datatype Map<K(==,!new), V> = Map(order: seq<K>, entries: map<K, V>) {
    ghost predicate Valid()
    {
      NoDup(order) && forall k :: k in entries <==> k in order
    }

    predicate Has(k: K)
    {
      k in entries
    }

    function Get(k: K): (r: Option<V>)
      ensures r.Some? <==> Has(k)
      ensures r.Some? ==> r.value == entries[k]
    {
      if k in entries then Some(entries[k]) else None
    }

    function Size(): nat
    {
      |order|
    }

    /** `map.set(k, v)`. */
    function Set(k: K, v: V): (r: Map<K, V>)
      ensures Valid() ==> r.Valid()
      ensures r.entries == entries[k := v]
      ensures k in order ==> r.order == order
      ensures k !in order ==> r.order == order + [k]
    {
      if k in order then Map(order, entries[k := v])
      else Map(order + [k], entries[k := v])
    }

    /** `map.delete(k)`. */
    function Delete(k: K): (r: Map<K, V>)
      ensures Valid() ==> r.Valid()
      ensures r.entries == entries - {k}
      ensures r.order == Remove(order, k)
    {
      Map(Remove(order, k), entries - {k})
    }

    /** `Array.from(map.entries())`. */
    function Entries(): (r: seq<(K, V)>)
      requires Valid()
      ensures |r| == |order|
      ensures forall i :: 0 <= i < |r| ==> r[i] == (order[i], entries[order[i]])
    {
      seq(|order|, i requires 0 <= i < |order| => (order[i], entries[order[i]]))
    }
  }

  function EmptyMap<K(==,!new), V>(): (r: Map<K, V>)
    ensures r.Valid() && r.order == [] && r.entries == map[]
  {
    Map([], map[])
  }

  /** `new Map(pairs)`: later pairs overwrite earlier ones, a key keeps the
      position of its first pair. */
  function FromEntries<K(==,!new), V>(pairs: seq<(K, V)>): (r: Map<K, V>)
    ensures r.Valid()
    decreases |pairs|
  {
    if |pairs| == 0 then EmptyMap()
    else FromEntries(pairs[..|pairs| - 1]).Set(pairs[|pairs| - 1].0, pairs[|pairs| - 1].1)
  }

  function Keys<K, V>(pairs: seq<(K, V)>): (r: seq<K>)
    ensures |r| == |pairs|
    ensures forall i :: 0 <= i < |pairs| ==> r[i] == pairs[i].0
  {
    seq(|pairs|, i requires 0 <= i < |pairs| => pairs[i].0)
  }

  /** Dropping the last element keeps a sequence duplicate-free, and the
      last element is not among the others. */
  lemma NoDupInit<K>(s: seq<K>)
    requires NoDup(s) && |s| > 0
    ensures NoDup(s[..|s| - 1]) && s[|s| - 1] !in s[..|s| - 1]
  {
    var init := s[..|s| - 1];
    forall i, j | 0 <= i < j < |init| ensures init[i] != init[j] {
      assert s[i] != s[j];
    }
    forall i | 0 <= i < |init| ensures init[i] != s[|s| - 1] {
      assert s[i] != s[|s| - 1];
    }
  }

  /** A duplicate-free sequence holds each value at most once. */
  lemma {:induction false} NoDupCount<K>(s: seq<K>, x: K)
    requires NoDup(s)
    ensures multiset(s)[x] <= 1
  {
    if |s| > 0 {
      NoDupInit(s);
      NoDupCount(s[..|s| - 1], x);
      assert s == s[..|s| - 1] + [s[|s| - 1]];
    }
  }

  /** A permutation of a duplicate-free sequence is duplicate-free. */
  lemma NoDupPerm<K>(a: seq<K>, b: seq<K>)
    requires NoDup(a) && multiset(a) == multiset(b)
    ensures NoDup(b)
  {
    forall i, j | 0 <= i < j < |b| ensures b[i] != b[j] {
      if b[i] == b[j] {
        var x := b[i];
        assert b == b[..j] + [x] + b[j + 1..];
        assert x in b[..j];
        assert multiset(b)[x] >= 2;
        NoDupCount(a, x);
        assert false;
      }
    }
  }

  /** With distinct keys, `new Map(pairs)` keeps the pairs' order. */
  lemma {:induction false} FromDistinctOrder<K(!new), V>(pairs: seq<(K, V)>)
    requires NoDup(Keys(pairs))
    ensures FromEntries(pairs).order == Keys(pairs)
    decreases |pairs|
  {
    if |pairs| > 0 {
      var n := |pairs|;
      var init := pairs[..n - 1];
      assert Keys(init) == Keys(pairs)[..n - 1];
      NoDupInit(Keys(pairs));
      FromDistinctOrder(init);
      assert pairs[n - 1].0 !in FromEntries(init).order;
      assert Keys(pairs) == Keys(init) + [pairs[n - 1].0];
    }
  }

  /** With distinct keys, `new Map(pairs)` maps each pair's key to its value. */
  lemma {:induction false} FromDistinctValue<K(!new), V>(pairs: seq<(K, V)>, i: int)
    requires NoDup(Keys(pairs)) && 0 <= i < |pairs|
    ensures pairs[i].0 in FromEntries(pairs).entries
    ensures FromEntries(pairs).entries[pairs[i].0] == pairs[i].1
    decreases |pairs|
  {
    var n := |pairs|;
    if i < n - 1 {
      var init := pairs[..n - 1];
      assert Keys(init) == Keys(pairs)[..n - 1];
      NoDupInit(Keys(pairs));
      FromDistinctValue(init, i);
      assert init[i] == pairs[i];
      assert Keys(pairs)[i] != Keys(pairs)[n - 1];
    }
  }

  /** With distinct keys, `new Map(pairs)` keeps the pairs' order and values. */
  lemma FromDistinctEntries<K(!new), V>(pairs: seq<(K, V)>)
    requires NoDup(Keys(pairs))
    ensures FromEntries(pairs).order == Keys(pairs)
    ensures forall i :: 0 <= i < |pairs| ==> FromEntries(pairs).entries[pairs[i].0] == pairs[i].1
  {
    FromDistinctOrder(pairs);
    forall i | 0 <= i < |pairs| ensures FromEntries(pairs).entries[pairs[i].0] == pairs[i].1 {
      FromDistinctValue(pairs, i);
    }
  }

  /** Every value of `new Map(pairs)` is the value of one of the pairs, so a
      property of all the pairs' values holds of all the map's values. */
  lemma {:induction false} FromEntriesValues<K(!new), V>(pairs: seq<(K, V)>, p: V -> bool)
    requires forall i :: 0 <= i < |pairs| ==> p(pairs[i].1)
    ensures forall k :: k in FromEntries(pairs).entries ==> p(FromEntries(pairs).entries[k])
    decreases |pairs|
  {
    if |pairs| > 0 {
      var init := pairs[..|pairs| - 1];
      assert forall i :: 0 <= i < |init| ==> init[i] == pairs[i];
      FromEntriesValues(init, p);
    }
  }

  /** Rebuilding a map from its own entries gives the same map. */
  lemma FromOwnEntries<K(!new), V>(m: Map<K, V>)
    requires m.Valid()
    ensures FromEntries(m.Entries()) == m
  {
    var es := m.Entries();
    assert Keys(es) == m.order;
    FromDistinctEntries(es);
    var r := FromEntries(es);
    assert r.entries.Keys == m.entries.Keys by {
      assert r.order == m.order;
    }
    forall k | k in m.entries ensures r.entries[k] == m.entries[k] {
      var i :| 0 <= i < |m.order| && m.order[i] == k;
      assert es[i] == (k, m.entries[k]);
    }
  }

  /** A JavaScript `Set`: its elements in insertion order. */
  datatype Set<K(==,!new)> = Set(elems: seq<K>) {
    ghost predicate Valid()
    {
      NoDup(elems)
    }

    predicate Has(k: K)
    {
      k in elems
    }

    function Size(): nat
    {
      |elems|
    }

    /** `set.add(k)`. */
    function Add(k: K): (r: Set<K>)
      ensures Valid() ==> r.Valid()
      ensures forall x :: r.Has(x) <==> Has(x) || x == k
      ensures Has(k) ==> r == this
      ensures !Has(k) ==> r.elems == elems + [k]
    {
      if k in elems then this else Set(elems + [k])
    }

    /** `set.delete(k)`. */
    function Delete(k: K): (r: Set<K>)
      ensures Valid() ==> r.Valid()
      ensures forall x :: r.Has(x) <==> Has(x) && x != k
      ensures Valid() && Has(k) ==> r.Size() == Size() - 1
      ensures !Has(k) ==> r == this
    {
      Set(Remove(elems, k))
    }
  }

  /** `new Set(items)`: the first occurrence of each item, in order. */
  function SetFrom<K(==,!new)>(items: seq<K>): (r: Set<K>)
    ensures r.Valid()
    ensures forall x :: r.Has(x) <==> x in items
    ensures NoDup(items) ==> r.elems == items
    decreases |items|
  {
    if |items| == 0 then Set([])
    else
      var s := SetFrom(items[..|items| - 1]);
      assert items == items[..|items| - 1] + [items[|items| - 1]];
      s.Add(items[|items| - 1])
  }
}
