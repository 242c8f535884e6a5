/**
 * `Array.prototype.sort` with a comparator that subtracts two keys. Since
 * ECMAScript 2019 the sort is stable, so its result is the one sequence that
 * is ordered by key and keeps the input order among equal keys; the model
 * computes it by insertion sort.
 */
module StableSort {

  /** Ordered non-decreasingly by `key`. */
  ghost predicate SortedBy<T>(s: seq<T>, key: T -> int)
  {
    forall i, j :: 0 <= i < j < |s| ==> key(s[i]) <= key(s[j])
  }

  /** The elements of `s` whose key is `k`, in the order they appear in `s`. */
  function WithKey<T>(s: seq<T>, key: T -> int, k: int): seq<T>
  {
    if s == [] then []
    else (if key(s[0]) == k then [s[0]] else []) + WithKey(s[1..], key, k)
  }

  /** Inserts `x` after every element of the ordered `s` whose key is not greater. */
  function InsertBy<T>(x: T, s: seq<T>, key: T -> int): seq<T>
  {
    if s == [] || key(x) < key(s[0]) then [x] + s
    else [s[0]] + InsertBy(x, s[1..], key)
  }

  /** Insertion sort: each element goes in after the ones that came before it. */
  function SortBy<T>(s: seq<T>, key: T -> int): seq<T>
  {
    if s == [] then [] else InsertBy(s[|s| - 1], SortBy(s[..|s| - 1], key), key)
  }

  lemma {:induction false} WithKeyAppend<T>(a: seq<T>, b: seq<T>, key: T -> int, k: int)
    ensures WithKey(a + b, key, k) == WithKey(a, key, k) + WithKey(b, key, k)
  {
    if a != [] {
      assert (a + b)[1..] == a[1..] + b;
      WithKeyAppend(a[1..], b, key, k);
    } else {
      assert a + b == b;
    }
  }

  lemma {:induction false} WithKeyAbsent<T>(s: seq<T>, key: T -> int, k: int)
    requires forall i :: 0 <= i < |s| ==> key(s[i]) != k
    ensures WithKey(s, key, k) == []
  {
    if s != [] {
      WithKeyAbsent(s[1..], key, k);
    }
  }

  lemma {:induction false} WithKeyMember<T>(s: seq<T>, key: T -> int, k: int, i: nat)
    requires i < |s| && key(s[i]) == k
    ensures WithKey(s, key, k) != []
  {
    if i > 0 {
      WithKeyMember(s[1..], key, k, i - 1);
    }
  }

  /** Inserting adds exactly `x`. */
  lemma {:induction false} InsertByMultiset<T>(x: T, s: seq<T>, key: T -> int)
    ensures multiset(InsertBy(x, s, key)) == multiset(s) + multiset{x}
  {
    if s != [] && key(x) >= key(s[0]) {
      InsertByMultiset(x, s[1..], key);
      assert s == [s[0]] + s[1..];
    }
  }

  /** Inserting keeps the order. */
  lemma {:induction false} InsertBySorted<T>(x: T, s: seq<T>, key: T -> int)
    requires SortedBy(s, key)
    ensures SortedBy(InsertBy(x, s, key), key)
  {
    if s != [] && key(x) >= key(s[0]) {
      var t := InsertBy(x, s[1..], key);
      InsertBySorted(x, s[1..], key);
      InsertByBound(x, s[1..], key, key(s[0]));
      var r := [s[0]] + t;
      assert InsertBy(x, s, key) == r;
      forall i, j | 0 <= i < j < |r| ensures key(r[i]) <= key(r[j]) {
        assert r[j] == t[j - 1];
        if i > 0 {
          assert r[i] == t[i - 1];
        }
      }
    }
  }

  /** A lower bound on the keys of `s` and on `x` bounds the keys after inserting. */
  lemma {:induction false} InsertByBound<T>(x: T, s: seq<T>, key: T -> int, b: int)
    requires key(x) >= b && forall i :: 0 <= i < |s| ==> key(s[i]) >= b
    ensures forall i :: 0 <= i < |InsertBy(x, s, key)| ==> key(InsertBy(x, s, key)[i]) >= b
  {
    if s != [] && key(x) >= key(s[0]) {
      InsertByBound(x, s[1..], key, b);
      var t := InsertBy(x, s[1..], key);
      assert InsertBy(x, s, key) == [s[0]] + t;
    }
  }

  /** Inserting puts `x` last among the elements of its key. */
  lemma {:induction false} InsertByGroups<T>(x: T, s: seq<T>, key: T -> int, k: int)
    requires SortedBy(s, key)
    ensures WithKey(InsertBy(x, s, key), key, k) == WithKey(s, key, k) + (if key(x) == k then [x] else [])
  {
    var r := InsertBy(x, s, key);
    if s == [] || key(x) < key(s[0]) {
      assert r[1..] == s;
      if key(x) == k {
        WithKeyAbsent(s, key, k);
      }
    } else {
      InsertByGroups(x, s[1..], key, k);
      assert r[1..] == InsertBy(x, s[1..], key);
    }
  }

  /** The sorted result is ordered by key, a permutation of the input, and
      keeps the input order among the elements of each key. */
  lemma SortByProperties<T>(s: seq<T>, key: T -> int)
    ensures SortedBy(SortBy(s, key), key)
    ensures multiset(SortBy(s, key)) == multiset(s)
    ensures forall k :: WithKey(SortBy(s, key), key, k) == WithKey(s, key, k)
  {
    SortBySorted(s, key);
    SortByMultiset(s, key);
    forall k ensures WithKey(SortBy(s, key), key, k) == WithKey(s, key, k) {
      SortByGroups(s, key, k);
    }
  }

  lemma {:induction false} SortBySorted<T>(s: seq<T>, key: T -> int)
    ensures SortedBy(SortBy(s, key), key)
  {
    if s != [] {
      SortBySorted(s[..|s| - 1], key);
      InsertBySorted(s[|s| - 1], SortBy(s[..|s| - 1], key), key);
    }
  }

  lemma {:induction false} SortByMultiset<T>(s: seq<T>, key: T -> int)
    ensures multiset(SortBy(s, key)) == multiset(s)
  {
    if s != [] {
      var init, last := s[..|s| - 1], s[|s| - 1];
      SortByMultiset(init, key);
      InsertByMultiset(last, SortBy(init, key), key);
      assert s == init + [last];
    }
  }

  lemma {:induction false} SortByGroups<T>(s: seq<T>, key: T -> int, k: int)
    ensures WithKey(SortBy(s, key), key, k) == WithKey(s, key, k)
  {
    if s != [] {
      var init, last := s[..|s| - 1], s[|s| - 1];
      SortByGroups(init, key, k);
      SortBySorted(init, key);
      InsertByGroups(last, SortBy(init, key), key, k);
      WithKeyAppend(init, [last], key, k);
      assert s == init + [last];
    }
  }

  /** Only one sequence is ordered by key and has given elements per key, in
      a given order: any stable sort of `s` yields `SortBy(s, key)`. */
  lemma {:induction false} StableSortUnique<T>(r: seq<T>, s: seq<T>, key: T -> int)
    requires SortedBy(r, key)
    requires forall k :: WithKey(r, key, k) == WithKey(s, key, k)
    ensures r == SortBy(s, key)
  {
    SortByProperties(s, key);
    SortedSameGroupsEqual(r, SortBy(s, key), key);
  }

  lemma {:induction false} SortedSameGroupsEqual<T>(r: seq<T>, q: seq<T>, key: T -> int)
    requires SortedBy(r, key) && SortedBy(q, key)
    requires forall k :: WithKey(r, key, k) == WithKey(q, key, k)
    ensures r == q
    decreases |r|
  {
    if r == [] {
      NoGroupsEmpty(q, key);
    } else if q == [] {
      NoGroupsEmpty(r, key);
    } else {
      var kr, kq := key(r[0]), key(q[0]);
      assert kr == kq by {
        FirstOfGroup(q, key, kr);
        FirstOfGroup(r, key, kq);
        WithKeyMember(r, key, kr, 0);
        WithKeyMember(q, key, kq, 0);
      }
      assert r[0] == q[0] by {
        assert WithKey(r, key, kr)[0] == r[0];
        assert WithKey(q, key, kr)[0] == q[0];
      }
      forall k ensures WithKey(r[1..], key, k) == WithKey(q[1..], key, k) {
        var h := if kr == k then [r[0]] else [];
        assert WithKey(r, key, k) == h + WithKey(r[1..], key, k);
        assert WithKey(q, key, k) == h + WithKey(q[1..], key, k);
        assert WithKey(r[1..], key, k) == WithKey(r, key, k)[|h|..];
        assert WithKey(q[1..], key, k) == WithKey(q, key, k)[|h|..];
      }
      SortedSameGroupsEqual(r[1..], q[1..], key);
      assert r == [r[0]] + r[1..] && q == [q[0]] + q[1..];
    }
  }

  lemma NoGroupsEmpty<T>(s: seq<T>, key: T -> int)
    requires forall k :: WithKey(s, key, k) == []
    ensures s == []
  {
    if s != [] {
      WithKeyMember(s, key, key(s[0]), 0);
    }
  }

  /** In an ordered sequence, an element of key `k` exists only if the first key is at most `k`. */
  lemma {:induction false} FirstOfGroup<T>(s: seq<T>, key: T -> int, k: int)
    requires SortedBy(s, key) && s != []
    requires WithKey(s, key, k) != []
    ensures key(s[0]) <= k
  {
    if key(s[0]) > k {
      WithKeyAbsent(s, key, k);
    }
  }
}
