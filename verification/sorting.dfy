/** `Array.prototype.sort` with a comparator that subtracts one numeric key
    from another. The sort is stable, so it is written here as an insertion
    sort that places each element after every element whose key is not
    larger. */
module Sorting {
  predicate Sorted<T>(s: seq<T>, key: T -> real)
  {
    forall i, j :: 0 <= i < j < |s| ==> key(s[i]) <= key(s[j])
  }

  /** Places `x` after every trailing element whose key is larger. */
  function InsertBy<T>(s: seq<T>, x: T, key: T -> real): (r: seq<T>)
    ensures |r| == |s| + 1
    ensures multiset(r) == multiset(s) + multiset{x}
  {
    if |s| == 0 then [x]
    else
      var last := s[|s| - 1];
      var init := s[..|s| - 1];
      assert s == init + [last];
      if key(last) <= key(x) then s + [x]
      else InsertBy(init, x, key) + [last]
  }

  /** Appending an element no smaller than the last keeps a sequence sorted. */
  lemma AppendSorted<T>(s: seq<T>, x: T, key: T -> real)
    requires Sorted(s, key) && (|s| == 0 || key(s[|s| - 1]) <= key(x))
    ensures Sorted(s + [x], key)
  {
    forall i, j | 0 <= i < j < |s + [x]| ensures key((s + [x])[i]) <= key((s + [x])[j]) {
      if j == |s| && i < |s| - 1 {
        assert key(s[i]) <= key(s[|s| - 1]);
      }
    }
  }

  /** Every element of `front` has a key of at most `bound`. */
  ghost predicate Before<T>(front: seq<T>, bound: real, key: T -> real)
  {
    forall i :: 0 <= i < |front| ==> key(front[i]) <= bound
  }

  lemma AppendAfter<T>(front: seq<T>, last: T, key: T -> real)
    requires Sorted(front, key) && Before(front, key(last), key)
    ensures Sorted(front + [last], key)
  {
  }

  /** Insertion keeps a sorted sequence sorted. */
  lemma {:induction false} InsertSorted<T>(s: seq<T>, x: T, key: T -> real)
    requires Sorted(s, key)
    ensures Sorted(InsertBy(s, x, key), key)
  {
    if |s| > 0 {
      var last := s[|s| - 1];
      var init := s[..|s| - 1];
      if key(last) <= key(x) {
        AppendSorted(s, x, key);
      } else {
        assert Sorted(init, key);
        InsertSorted(init, x, key);
        var front := InsertBy(init, x, key);
        forall i | 0 <= i < |front| ensures key(front[i]) <= key(last) {
          var y := front[i];
          assert y in multiset(front);
          if y != x {
            assert y in multiset(init);
            var k :| 0 <= k < |init| && init[k] == y;
            assert s[k] == y;
          }
        }
        AppendAfter(front, last, key);
      }
    }
  }

  /** The stable sort by `key`: a permutation of `s` in ascending key order. */
  function SortBy<T>(s: seq<T>, key: T -> real): (r: seq<T>)
    ensures |r| == |s| && multiset(r) == multiset(s) && Sorted(r, key)
  {
    if |s| == 0 then []
    else
      assert s == s[..|s| - 1] + [s[|s| - 1]];
      var front := SortBy(s[..|s| - 1], key);
      InsertSorted(front, s[|s| - 1], key);
      InsertBy(front, s[|s| - 1], key)
  }

  /** Sorting an already sorted sequence changes nothing. */
  lemma {:induction false} SortSorted<T>(s: seq<T>, key: T -> real)
    requires Sorted(s, key)
    ensures SortBy(s, key) == s
  {
    if |s| > 0 {
      var init := s[..|s| - 1];
      var last := s[|s| - 1];
      assert Sorted(init, key);
      SortSorted(init, key);
      assert SortBy(s, key) == InsertBy(init, last, key);
      assert s == init + [last];
      if |init| > 0 {
        assert key(init[|init| - 1]) <= key(last);
      }
    }
  }

  /** Every element of a sorted sequence's prefix has a key no larger than
      every element after it. */
  lemma PrefixBelow<T>(s: seq<T>, n: nat, key: T -> real)
    requires Sorted(s, key) && n <= |s|
    ensures forall a, b :: a in s[..n] && b in s[n..] ==> key(a) <= key(b)
  {
    forall a, b | a in s[..n] && b in s[n..] ensures key(a) <= key(b) {
      var i :| 0 <= i < n && s[..n][i] == a;
      var j :| 0 <= j < |s| - n && s[n..][j] == b;
      assert s[i] == a && s[n + j] == b;
    }
  }
}
