/**
 * `Array.prototype.sort`, which is stable, as the trip data uses it: by a
 * numeric key (`(a, b) => key(a) - key(b)`), and by the default order on
 * strings (lexicographic by character, that is by code point). Both are
 * modelled by insertion sort.
 * For the numeric key, StableSortUnique shows that every stable sort gives
 * the same result, so the choice of algorithm does not matter.
 */
module Sorting {
  import opened Seqs

  /** `s` is in ascending order of `key`. */
  predicate SortedBy<T>(s: seq<T>, key: T -> int) {
    forall i, j :: 0 <= i < j < |s| ==> key(s[i]) <= key(s[j])
  }

  /** The elements of `s` whose key is `k`, in their order in `s`. */
  function WithKey<T>(s: seq<T>, key: T -> int, k: int): seq<T>
    decreases |s|
  {
    if s == [] then []
    else WithKey(s[..|s| - 1], key, k) + (if key(s[|s| - 1]) == k then [s[|s| - 1]] else [])
  }

  lemma {:induction false} WithKeyMember<T>(s: seq<T>, key: T -> int, k: int, x: T)
    requires x in WithKey(s, key, k)
    ensures x in s && key(x) == k
    decreases |s|
  {
    if s != [] {
      var s' := s[..|s| - 1];
      if x in WithKey(s', key, k) {
        WithKeyMember(s', key, k, x);
      }
    }
  }

  /** Inserts `x` into `p` just after the last element whose key is at most
      `x`'s: one step of a stable insertion sort. */
  function Insert<T>(p: seq<T>, x: T, key: T -> int): (r: seq<T>)
    ensures |r| == |p| + 1
    decreases |p|
  {
    if p == [] || key(p[|p| - 1]) <= key(x) then p + [x]
    else Insert(p[..|p| - 1], x, key) + [p[|p| - 1]]
  }

  /** Inserting adds `x` and loses nothing. */
  lemma {:induction false} InsertPermutes<T>(p: seq<T>, x: T, key: T -> int)
    ensures multiset(Insert(p, x, key)) == multiset(p) + multiset{x}
    decreases |p|
  {
    if p != [] && key(p[|p| - 1]) > key(x) {
      var q := p[..|p| - 1];
      InsertPermutes(q, x, key);
      assert p == q + [p[|p| - 1]];
    }
  }

  /** The sort of `s` by `key`, ties kept in their order in `s`. */
  function InsertionSort<T>(s: seq<T>, key: T -> int): (r: seq<T>)
    ensures |r| == |s|
    decreases |s|
  {
    if s == [] then []
    else Insert(InsertionSort(s[..|s| - 1], key), s[|s| - 1], key)
  }

  /** The sort is a permutation of its input. */
  lemma {:induction false} InsertionSortPermutes<T>(s: seq<T>, key: T -> int)
    ensures multiset(InsertionSort(s, key)) == multiset(s)
    decreases |s|
  {
    if s != [] {
      InsertionSortPermutes(s[..|s| - 1], key);
      InsertPermutes(InsertionSort(s[..|s| - 1], key), s[|s| - 1], key);
      assert s == s[..|s| - 1] + [s[|s| - 1]];
    }
  }

  /** A sequence that agrees with `p` before `j`, holds `x` at `j` and `p`
      shifted by one after it is `p` with `x` spliced in at `j`. */
  lemma SplicedAt<T>(r: seq<T>, p: seq<T>, x: T, j: nat)
    requires j <= |p| && |r| == |p| + 1 && r[j] == x
    requires forall k :: 0 <= k < j ==> r[k] == p[k]
    requires forall k :: j < k < |r| ==> r[k] == p[k - 1]
    ensures r == p[..j] + [x] + p[j..]
  {
  }

  /** Where the insertion step puts `x`: after the elements whose key is at
      most its own, ahead of the run of larger keys that ends `p`. This is
      what shifting the larger elements up one place in an array produces. */
  lemma {:induction false} InsertAt<T>(p: seq<T>, x: T, key: T -> int, j: nat)
    requires j <= |p|
    requires j > 0 ==> key(p[j - 1]) <= key(x)
    requires forall k :: j <= k < |p| ==> key(p[k]) > key(x)
    ensures Insert(p, x, key) == p[..j] + [x] + p[j..]
    decreases |p| - j
  {
    if j < |p| {
      var q, last := p[..|p| - 1], p[|p| - 1];
      assert key(last) > key(x);
      assert p == q + [last];
      assert j > 0 ==> q[j - 1] == p[j - 1];
      assert forall k :: j <= k < |q| ==> q[k] == p[k];
      InsertAt(q, x, key, j);
      assert q[..j] == p[..j];
      assert q[j..] + [last] == p[j..];
      assert Insert(p, x, key) == Insert(q, x, key) + [last];
    } else {
      assert p[..j] == p;
      assert p[j..] == [];
    }
  }

  /** Inserting into a sorted sequence keeps it sorted. */
  lemma {:induction false} InsertSorted<T>(p: seq<T>, x: T, key: T -> int)
    requires SortedBy(p, key)
    ensures SortedBy(Insert(p, x, key), key)
    decreases |p|
  {
    if p != [] && key(p[|p| - 1]) > key(x) {
      var q, last := p[..|p| - 1], p[|p| - 1];
      InsertSorted(q, x, key);
      var r' := Insert(q, x, key);
      InsertPermutes(q, x, key);
      forall i | 0 <= i < |r'| ensures key(r'[i]) <= key(last) {
        assert r'[i] in multiset(r');
        if r'[i] != x {
          assert r'[i] in multiset(q);
          var k :| 0 <= k < |q| && q[k] == r'[i];
          assert p[k] == q[k];
        }
      }
    }
  }

  /** The insertion sort is sorted. */
  lemma {:induction false} InsertionSortSorted<T>(s: seq<T>, key: T -> int)
    ensures SortedBy(InsertionSort(s, key), key)
    decreases |s|
  {
    if s != [] {
      InsertionSortSorted(s[..|s| - 1], key);
      InsertSorted(InsertionSort(s[..|s| - 1], key), s[|s| - 1], key);
    }
  }

  /** Inserting `x` adds it after every element of equal key. */
  lemma {:induction false} InsertWithKey<T>(p: seq<T>, x: T, key: T -> int, k: int)
    ensures WithKey(Insert(p, x, key), key, k) ==
      WithKey(p, key, k) + (if key(x) == k then [x] else [])
    decreases |p|
  {
    if p == [] || key(p[|p| - 1]) <= key(x) {
      assert (p + [x])[..|p|] == p;
    } else {
      var q, last := p[..|p| - 1], p[|p| - 1];
      var r' := Insert(q, x, key);
      InsertWithKey(q, x, key, k);
      assert (r' + [last])[..|r'|] == r';
    }
  }

  /** The sort is stable: for every key, the elements with that key keep
      their relative order. */
  lemma {:induction false} InsertionSortStable<T>(s: seq<T>, key: T -> int, k: int)
    ensures WithKey(InsertionSort(s, key), key, k) == WithKey(s, key, k)
    decreases |s|
  {
    if s != [] {
      InsertionSortStable(s[..|s| - 1], key, k);
      InsertWithKey(InsertionSort(s[..|s| - 1], key), s[|s| - 1], key, k);
    }
  }

  /** The last element is among those with its own key. */
  lemma LastHasItsKey<T>(s: seq<T>, key: T -> int)
    ensures s != [] ==> s[|s| - 1] in WithKey(s, key, key(s[|s| - 1]))
  {
  }

  /** In a sorted sequence the last element has the largest key. */
  lemma LastIsLargest<T>(s: seq<T>, key: T -> int, y: T)
    requires SortedBy(s, key) && y in s
    ensures key(y) <= key(s[|s| - 1])
  {
    var i :| 0 <= i < |s| && s[i] == y;
    if i < |s| - 1 {
      assert key(s[i]) <= key(s[|s| - 1]);
    }
  }

  /** Two sorted sequences with the same elements per key end in the same
      element: the last one with the largest key. */
  lemma SameLast<T>(a: seq<T>, b: seq<T>, key: T -> int)
    requires SortedBy(a, key) && SortedBy(b, key) && a != [] && b != []
    requires forall k :: WithKey(a, key, k) == WithKey(b, key, k)
    ensures key(a[|a| - 1]) == key(b[|b| - 1])
    ensures a[|a| - 1] == b[|b| - 1]
  {
    var ka, kb := key(a[|a| - 1]), key(b[|b| - 1]);
    LastHasItsKey(a, key);
    LastHasItsKey(b, key);
    assert WithKey(a, key, ka) == WithKey(b, key, ka);
    assert WithKey(a, key, kb) == WithKey(b, key, kb);
    WithKeyMember(b, key, ka, a[|a| - 1]);
    WithKeyMember(a, key, kb, b[|b| - 1]);
    LastIsLargest(b, key, a[|a| - 1]);
    LastIsLargest(a, key, b[|b| - 1]);
    var w := WithKey(a, key, ka);
    assert w == WithKey(a[..|a| - 1], key, ka) + [a[|a| - 1]];
    assert w == WithKey(b[..|b| - 1], key, ka) + [b[|b| - 1]];
  }

  /** Dropping an equal last element keeps the elements per key equal. */
  lemma DropSameLast<T>(a: seq<T>, b: seq<T>, key: T -> int, k: int)
    requires a != [] && b != [] && a[|a| - 1] == b[|b| - 1]
    requires WithKey(a, key, k) == WithKey(b, key, k)
    ensures WithKey(a[..|a| - 1], key, k) == WithKey(b[..|b| - 1], key, k)
  {
    var x := a[|a| - 1];
    var tail := if key(x) == k then [x] else [];
    var wa', wb' := WithKey(a[..|a| - 1], key, k), WithKey(b[..|b| - 1], key, k);
    assert WithKey(a, key, k) == wa' + tail;
    assert WithKey(b, key, k) == wb' + tail;
    assert wa' == (wa' + tail)[..|wa'|];
    assert wb' == (wb' + tail)[..|wb'|];
  }

  /** A stable sort by a key is unique: two sorted sequences that hold, for
      every key, the same elements with that key in the same order are equal.
      So any stable sort of `s` (such as the engine's `Array.prototype.sort`)
      is `InsertionSort(s, key)`. */
  lemma {:induction false} StableSortUnique<T>(a: seq<T>, b: seq<T>, key: T -> int)
    requires SortedBy(a, key) && SortedBy(b, key)
    requires forall k :: WithKey(a, key, k) == WithKey(b, key, k)
    ensures a == b
    decreases |a| + |b|
  {
    if a == [] && b == [] {
    } else if a == [] || b == [] {
      LastHasItsKey(a, key);
      LastHasItsKey(b, key);
      assert false;
    } else {
      SameLast(a, b, key);
      var a', b' := a[..|a| - 1], b[..|b| - 1];
      forall k ensures WithKey(a', key, k) == WithKey(b', key, k) {
        DropSameLast(a, b, key, k);
      }
      StableSortUnique(a', b', key);
      assert a == a' + [a[|a| - 1]] && b == b' + [b[|b| - 1]];
    }
  }

  /** JavaScript's `<` on strings: lexicographic by character, with a proper
      prefix before its extensions. */
  predicate LexLess(a: string, b: string)
    decreases |a|
  {
    |b| > 0 && (|a| == 0 || a[0] < b[0] || (a[0] == b[0] && LexLess(a[1..], b[1..])))
  }

  lemma {:induction false} LexIrreflexive(a: string)
    ensures !LexLess(a, a)
    decreases |a|
  {
    if |a| > 0 {
      LexIrreflexive(a[1..]);
    }
  }

  lemma {:induction false} LexTransitive(a: string, b: string, c: string)
    requires LexLess(a, b) && LexLess(b, c)
    ensures LexLess(a, c)
    decreases |a|
  {
    if |a| > 0 && a[0] == b[0] && b[0] == c[0] {
      LexTransitive(a[1..], b[1..], c[1..]);
    }
  }

  lemma {:induction false} LexTotal(a: string, b: string)
    ensures a == b || LexLess(a, b) || LexLess(b, a)
    decreases |a|
  {
    if |a| > 0 && |b| > 0 && a[0] == b[0] {
      LexTotal(a[1..], b[1..]);
      if a[1..] == b[1..] {
        assert a == [a[0]] + a[1..] && b == [b[0]] + b[1..];
      }
    }
  }

  lemma LexAsymmetric(a: string, b: string)
    requires LexLess(a, b)
    ensures !LexLess(b, a)
  {
    if LexLess(b, a) {
      LexTransitive(a, b, a);
      LexIrreflexive(a);
    }
  }

  /** No element is followed by a smaller one. */
  predicate LexAscending(s: seq<string>) {
    forall i, j :: 0 <= i < j < |s| ==> !LexLess(s[j], s[i])
  }

  /** Inserts `x` after the last element not greater than it. */
  function InsertString(p: seq<string>, x: string): (r: seq<string>)
    ensures |r| == |p| + 1
    ensures multiset(r) == multiset(p) + multiset{x}
    decreases |p|
  {
    if p == [] || !LexLess(x, p[|p| - 1]) then p + [x]
    else
      var q := p[..|p| - 1];
      assert p == q + [p[|p| - 1]];
      InsertString(q, x) + [p[|p| - 1]]
  }

  /** `s.sort()` on strings. */
  function SortStrings(s: seq<string>): (r: seq<string>)
    ensures |r| == |s|
    ensures multiset(r) == multiset(s)
    decreases |s|
  {
    if s == [] then []
    else
      assert s == s[..|s| - 1] + [s[|s| - 1]];
      InsertString(SortStrings(s[..|s| - 1]), s[|s| - 1])
  }

  lemma {:induction false} InsertStringAscending(p: seq<string>, x: string)
    requires LexAscending(p)
    ensures LexAscending(InsertString(p, x))
    decreases |p|
  {
    if p == [] {
    } else if !LexLess(x, p[|p| - 1]) {
      var last := p[|p| - 1];
      forall i | 0 <= i < |p| ensures !LexLess(x, p[i]) {
        LexTotal(p[i], last);
        if LexLess(x, p[i]) && LexLess(p[i], last) {
          LexTransitive(x, p[i], last);
        }
      }
      assert forall i :: 0 <= i < |p| ==> (p + [x])[i] == p[i];
    } else {
      var q, last := p[..|p| - 1], p[|p| - 1];
      InsertStringAscending(q, x);
      var r' := InsertString(q, x);
      LexAscendingPrefix(p);
      forall i | 0 <= i < |r'| ensures !LexLess(last, r'[i]) {
        assert r'[i] in multiset(r');
        if r'[i] == x {
          LexAsymmetric(x, last);
        } else {
          assert r'[i] in multiset(q);
          var k :| 0 <= k < |q| && q[k] == r'[i];
          assert p[k] == q[k];
        }
      }
    }
  }

  lemma LexAscendingPrefix(p: seq<string>)
    requires LexAscending(p) && p != []
    ensures LexAscending(p[..|p| - 1])
  {
  }

  /** `s.sort()` leaves strings in ascending order. */
  lemma {:induction false} SortStringsAscending(s: seq<string>)
    ensures LexAscending(SortStrings(s))
    decreases |s|
  {
    if s != [] {
      SortStringsAscending(s[..|s| - 1]);
      InsertStringAscending(SortStrings(s[..|s| - 1]), s[|s| - 1]);
    }
  }

  /** A duplicate-free sequence holds every element at most once. */
  lemma {:induction false} DistinctCount<T>(s: seq<T>, x: T)
    requires Distinct(s)
    ensures multiset(s)[x] <= 1
    decreases |s|
  {
    if s != [] {
      var s' := s[..|s| - 1];
      assert s == s' + [s[|s| - 1]];
      DistinctCount(s', x);
      assert forall k :: 0 <= k < |s'| ==> s'[k] == s[k];
      assert s[|s| - 1] !in s';
    }
  }

  /** A permutation of a duplicate-free sequence is duplicate-free. */
  lemma PermutationDistinct<T>(a: seq<T>, b: seq<T>)
    requires multiset(a) == multiset(b) && Distinct(b)
    ensures Distinct(a)
  {
    forall i, j | 0 <= i < j < |a| ensures a[i] != a[j] {
      if a[i] == a[j] {
        var x := a[i];
        assert a == a[..j] + [a[j]] + a[j + 1..];
        assert x in a[..j];
        assert multiset(a)[x] >= 2;
        DistinctCount(b, x);
      }
    }
  }

  /** Sorting duplicate-free strings gives a strictly ascending sequence. */
  lemma SortStringsStrict(s: seq<string>)
    requires Distinct(s)
    ensures Distinct(SortStrings(s))
    ensures forall i, j :: 0 <= i < j < |SortStrings(s)| ==>
      LexLess(SortStrings(s)[i], SortStrings(s)[j])
  {
    var r := SortStrings(s);
    PermutationDistinct(r, s);
    SortStringsAscending(s);
    forall i, j | 0 <= i < j < |r| ensures LexLess(r[i], r[j]) {
      LexTotal(r[i], r[j]);
    }
  }
}
