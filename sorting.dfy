/**
 * The orderings the list's sorting operations produce.
 *
 * `MergeSort` is the top-down merge sort of `List::sort()` (split after the
 * first `n / 2` elements, merge taking from the left run on ties), written
 * over any element type with an integer key so that it describes both the
 * values and the nodes that carry them. `InsertSorted` is the position
 * `insertSorted` chooses, `MergeBy` the two-run merge driven by a caller's
 * comparator, and `InsertionSortBy` a reference sort for a caller's strict
 * weak order.
 */
module Sorting {
  import opened Sequences

  /** The key of a plain value is the value itself. */
  function Id(x: int): int
  {
    x
  }

  /** Non-decreasing keys. */
  predicate SortedBy<T>(s: seq<T>, key: T -> int)
  {
    forall i, j :: 0 <= i < j < |s| ==> key(s[i]) <= key(s[j])
  }

  /** Sorting by the identity key is `Sorted`. */
  lemma SortedById(s: seq<int>)
    ensures SortedBy(s, Id) <==> Sorted(s)
  {
  }

  /** Merging two runs, the left run's head going first when its key is not greater. */
  function Merge<T>(a: seq<T>, b: seq<T>, key: T -> int): (r: seq<T>)
    ensures |r| == |a| + |b|
    ensures multiset(r) == multiset(a) + multiset(b)
    decreases |a| + |b|
  {
    if a == [] then b
    else if b == [] then a
    else if key(a[0]) <= key(b[0]) then
      assert a == [a[0]] + a[1..];
      [a[0]] + Merge(a[1..], b, key)
    else
      assert b == [b[0]] + b[1..];
      [b[0]] + Merge(a, b[1..], key)
  }

  /** Top-down merge sort, the first run holding the first `|s| / 2` elements. */
  function MergeSort<T>(s: seq<T>, key: T -> int): (r: seq<T>)
    ensures |r| == |s|
    ensures multiset(r) == multiset(s)
    decreases |s|
  {
    if |s| <= 1 then s
    else
      var h := |s| / 2;
      assert s == s[..h] + s[h..];
      Merge(MergeSort(s[..h], key), MergeSort(s[h..], key), key)
  }

  lemma SortedByCons<T>(x: T, s: seq<T>, key: T -> int)
    requires SortedBy(s, key)
    requires forall y :: y in s ==> key(x) <= key(y)
    ensures SortedBy([x] + s, key)
  {
    var r := [x] + s;
    forall i, j | 0 <= i < j < |r| ensures key(r[i]) <= key(r[j]) {
      assert r[j] == s[j - 1];
      if i > 0 {
        assert r[i] == s[i - 1];
      }
    }
  }

  /** Merging two sorted runs gives a sorted run. */
  lemma {:induction false} MergeSorted<T>(a: seq<T>, b: seq<T>, key: T -> int)
    requires SortedBy(a, key) && SortedBy(b, key)
    ensures SortedBy(Merge(a, b, key), key)
    decreases |a| + |b|
  {
    if a != [] && b != [] {
      if key(a[0]) <= key(b[0]) {
        var m := Merge(a[1..], b, key);
        MergeSorted(a[1..], b, key);
        forall y | y in m ensures key(a[0]) <= key(y) {
          assert y in multiset(m);
          assert y in multiset(a[1..]) || y in multiset(b);
          if y in a[1..] {
            var j :| 0 <= j < |a[1..]| && a[1..][j] == y;
            assert a[j + 1] == y;
          } else {
            var j :| 0 <= j < |b| && b[j] == y;
            assert key(b[0]) <= key(b[j]);
          }
        }
        SortedByCons(a[0], m, key);
      } else {
        var m := Merge(a, b[1..], key);
        MergeSorted(a, b[1..], key);
        forall y | y in m ensures key(b[0]) <= key(y) {
          assert y in multiset(m);
          assert y in multiset(a) || y in multiset(b[1..]);
          if y in b[1..] {
            var j :| 0 <= j < |b[1..]| && b[1..][j] == y;
            assert b[j + 1] == y;
          } else {
            var j :| 0 <= j < |a| && a[j] == y;
            assert key(a[0]) <= key(a[j]);
          }
        }
        SortedByCons(b[0], m, key);
      }
    }
  }

  /** Merge sort produces a sorted sequence. */
  lemma {:induction false} MergeSortSorted<T>(s: seq<T>, key: T -> int)
    ensures SortedBy(MergeSort(s, key), key)
    decreases |s|
  {
    if |s| > 1 {
      var h := |s| / 2;
      MergeSortSorted(s[..h], key);
      MergeSortSorted(s[h..], key);
      MergeSorted(MergeSort(s[..h], key), MergeSort(s[h..], key), key);
    }
  }

  /** The elements whose key is `k`, in their original order. */
  function WithKey<T>(s: seq<T>, key: T -> int, k: int): (r: seq<T>)
    ensures |r| <= |s|
  {
    if s == [] then []
    else (if key(s[0]) == k then [s[0]] else []) + WithKey(s[1..], key, k)
  }

  lemma {:induction false} WithKeyAppend<T>(a: seq<T>, b: seq<T>, key: T -> int, k: int)
    ensures WithKey(a + b, key, k) == WithKey(a, key, k) + WithKey(b, key, k)
  {
    if a == [] {
      assert a + b == b;
    } else {
      var head := if key(a[0]) == k then [a[0]] else [];
      assert (a + b)[0] == a[0] && (a + b)[1..] == a[1..] + b;
      assert WithKey(a + b, key, k) == head + WithKey(a[1..] + b, key, k);
      WithKeyAppend(a[1..], b, key, k);
      assert WithKey(a, key, k) == head + WithKey(a[1..], key, k);
    }
  }

  lemma {:induction false} WithKeyAbove<T>(s: seq<T>, key: T -> int, k: int)
    requires forall i :: 0 <= i < |s| ==> k < key(s[i])
    ensures WithKey(s, key, k) == []
  {
    if s != [] {
      WithKeyAbove(s[1..], key, k);
    }
  }

  /** Merging keeps the relative order of equal keys: left run's ones first, then the right run's. */
  lemma {:induction false} MergeStable<T>(a: seq<T>, b: seq<T>, key: T -> int, k: int)
    requires SortedBy(a, key)
    ensures WithKey(Merge(a, b, key), key, k) == WithKey(a, key, k) + WithKey(b, key, k)
    decreases |a| + |b|
  {
    if a == [] {
      assert Merge(a, b, key) == b;
    } else if b == [] {
      assert Merge(a, b, key) == a;
    } else if key(a[0]) <= key(b[0]) {
      MergeStable(a[1..], b, key, k);
      WithKeyLeftFirst(a, b, key, k);
    } else {
      MergeStable(a, b[1..], key, k);
      WithKeyRightFirst(a, b, key, k);
    }
  }

  /** The step of `MergeStable` where the left head goes first. */
  lemma WithKeyLeftFirst<T>(a: seq<T>, b: seq<T>, key: T -> int, k: int)
    requires a != [] && b != [] && key(a[0]) <= key(b[0])
    requires WithKey(Merge(a[1..], b, key), key, k) == WithKey(a[1..], key, k) + WithKey(b, key, k)
    ensures WithKey(Merge(a, b, key), key, k) == WithKey(a, key, k) + WithKey(b, key, k)
  {
    var m := Merge(a[1..], b, key);
    var head := if key(a[0]) == k then [a[0]] else [];
    assert Merge(a, b, key) == [a[0]] + m;
    assert ([a[0]] + m)[1..] == m;
    assert WithKey([a[0]] + m, key, k) == head + WithKey(m, key, k);
    assert WithKey(a, key, k) == head + WithKey(a[1..], key, k);
    ConcatAssoc(head, WithKey(a[1..], key, k), WithKey(b, key, k));
  }

  /** The step of `MergeStable` where the right head goes first: no left element holds its key. */
  lemma WithKeyRightFirst<T>(a: seq<T>, b: seq<T>, key: T -> int, k: int)
    requires a != [] && b != [] && key(b[0]) < key(a[0]) && SortedBy(a, key)
    requires WithKey(Merge(a, b[1..], key), key, k) == WithKey(a, key, k) + WithKey(b[1..], key, k)
    ensures WithKey(Merge(a, b, key), key, k) == WithKey(a, key, k) + WithKey(b, key, k)
  {
    var m := Merge(a, b[1..], key);
    var head := if key(b[0]) == k then [b[0]] else [];
    assert Merge(a, b, key) == [b[0]] + m;
    assert ([b[0]] + m)[1..] == m;
    assert WithKey([b[0]] + m, key, k) == head + WithKey(m, key, k);
    assert WithKey(b, key, k) == head + WithKey(b[1..], key, k);
    if key(b[0]) == k {
      assert forall i :: 0 <= i < |a| ==> key(a[0]) <= key(a[i]);
      WithKeyAbove(a, key, k);
      assert WithKey(a, key, k) + WithKey(b[1..], key, k) == WithKey(b[1..], key, k);
    } else {
      assert head == [] && WithKey(b, key, k) == WithKey(b[1..], key, k);
    }
  }

  /**
   * Merge sort is stable: for every key, the elements holding that key
   * come out in the order they went in.
   */
  lemma {:induction false} MergeSortStable<T>(s: seq<T>, key: T -> int, k: int)
    ensures WithKey(MergeSort(s, key), key, k) == WithKey(s, key, k)
    decreases |s|
  {
    if |s| > 1 {
      var h := |s| / 2;
      var left, right := MergeSort(s[..h], key), MergeSort(s[h..], key);
      assert MergeSort(s, key) == Merge(left, right, key);
      MergeSortStable(s[..h], key, k);
      MergeSortStable(s[h..], key, k);
      MergeSortSorted(s[..h], key);
      MergeStable(left, right, key, k);
      WithKeyAppend(s[..h], s[h..], key, k);
      assert s[..h] + s[h..] == s;
    }
  }

  /** The keys of a sequence of elements. */
  function Keys<T>(s: seq<T>, key: T -> int): (r: seq<int>)
    ensures |r| == |s|
    ensures forall i :: 0 <= i < |s| ==> r[i] == key(s[i])
  {
    if s == [] then [] else [key(s[0])] + Keys(s[1..], key)
  }

  /** Taking keys commutes with cutting the sequence. */
  lemma {:induction false} KeysSlice<T>(s: seq<T>, key: T -> int, h: nat)
    requires h <= |s|
    ensures Keys(s[..h], key) == Keys(s, key)[..h]
    ensures Keys(s[h..], key) == Keys(s, key)[h..]
  {
    var k := Keys(s, key);
    assert forall i :: 0 <= i < h ==> Keys(s[..h], key)[i] == k[i];
    assert forall i :: 0 <= i < |s| - h ==> Keys(s[h..], key)[i] == k[h + i];
  }

  /** Merging elements and then taking keys is merging the keys. */
  lemma {:induction false} MergeKeys<T>(a: seq<T>, b: seq<T>, key: T -> int)
    ensures Keys(Merge(a, b, key), key) == Merge(Keys(a, key), Keys(b, key), Id)
    decreases |a| + |b|
  {
    if a != [] && b != [] {
      KeysSlice(a, key, 1);
      KeysSlice(b, key, 1);
      if key(a[0]) <= key(b[0]) {
        MergeKeys(a[1..], b, key);
        assert Keys([a[0]] + Merge(a[1..], b, key), key)
            == [key(a[0])] + Keys(Merge(a[1..], b, key), key);
      } else {
        MergeKeys(a, b[1..], key);
        assert Keys([b[0]] + Merge(a, b[1..], key), key)
            == [key(b[0])] + Keys(Merge(a, b[1..], key), key);
      }
    }
  }

  /**
   * Sorting elements by key and then taking keys is sorting the keys: the
   * values a sorted list holds do not depend on which nodes carry them.
   */
  lemma {:induction false} MergeSortKeys<T>(s: seq<T>, key: T -> int)
    ensures Keys(MergeSort(s, key), key) == MergeSort(Keys(s, key), Id)
    decreases |s|
  {
    if |s| > 1 {
      var h := |s| / 2;
      MergeSortKeys(s[..h], key);
      MergeSortKeys(s[h..], key);
      KeysSlice(s, key, h);
      MergeKeys(MergeSort(s[..h], key), MergeSort(s[h..], key), key);
    }
  }

  /** A sorted arrangement of a multiset is unique. */
  lemma {:induction false} SortedUnique(a: seq<int>, b: seq<int>)
    requires Sorted(a) && Sorted(b) && multiset(a) == multiset(b)
    ensures a == b
  {
    if a == [] {
      assert |b| == |multiset(b)| == 0;
    } else {
      assert |b| == |multiset(b)| == |a|;
      SortedLeast(a, b[0]);
      SortedLeast(b, a[0]);
      assert a[0] == b[0];
      assert a == [a[0]] + a[1..] && b == [b[0]] + b[1..];
      assert multiset(a[1..]) == multiset(a) - multiset{a[0]};
      assert multiset(b[1..]) == multiset(b) - multiset{b[0]};
      SortedTail(a);
      SortedTail(b);
      SortedUnique(a[1..], b[1..]);
    }
  }

  lemma SortedLeast(s: seq<int>, x: int)
    requires Sorted(s) && x in multiset(s)
    ensures s[0] <= x
  {
    assert x in s;
    var j :| 0 <= j < |s| && s[j] == x;
    if j > 0 {
      assert s[0] <= s[j];
    }
  }

  lemma SortedTail(s: seq<int>)
    requires Sorted(s) && s != []
    ensures Sorted(s[1..])
  {
    forall i, j | 0 <= i < j < |s| - 1 ensures s[1..][i] <= s[1..][j] {
      assert s[1..][i] == s[i + 1] && s[1..][j] == s[j + 1];
    }
  }

  /** `MergeSort` on values is the sorted permutation of its input. */
  lemma MergeSortIsSort(s: seq<int>)
    ensures Sorted(MergeSort(s, Id)) && multiset(MergeSort(s, Id)) == multiset(s)
    ensures forall t :: Sorted(t) && multiset(t) == multiset(s) ==> t == MergeSort(s, Id)
  {
    MergeSortSorted(s, Id);
    forall t | Sorted(t) && multiset(t) == multiset(s) ensures t == MergeSort(s, Id) {
      SortedUnique(t, MergeSort(s, Id));
    }
  }

  /** The index of the first element not less than `v` (`|s|` when there is none). */
  function FirstNotLess(s: seq<int>, v: int): (k: nat)
    ensures k <= |s|
    ensures forall i :: 0 <= i < k ==> s[i] < v
    ensures k < |s| ==> v <= s[k]
  {
    if s == [] then 0
    else if s[0] < v then 1 + FirstNotLess(s[1..], v)
    else 0
  }

  /** `FirstNotLess` is the one position whose predecessors are all below `v` and which is past the end or holds a value not below `v`. */
  lemma {:induction false} FirstNotLessAt(s: seq<int>, v: int, k: nat)
    requires k <= |s| && (forall i :: 0 <= i < k ==> s[i] < v) && (k < |s| ==> v <= s[k])
    ensures FirstNotLess(s, v) == k
  {
    if s != [] && k > 0 {
      assert forall i :: 0 <= i < k - 1 ==> s[1..][i] == s[i + 1];
      FirstNotLessAt(s[1..], v, k - 1);
    }
  }

  /** `v` placed before the first element that is not less than it. */
  function InsertSorted(s: seq<int>, v: int): seq<int>
  {
    var k := FirstNotLess(s, v);
    s[..k] + [v] + s[k..]
  }

  /** Where each element of `InsertSorted(s, v)` comes from. */
  lemma InsertSortedAt(s: seq<int>, v: int, k: nat)
    requires k == FirstNotLess(s, v)
    ensures |InsertSorted(s, v)| == |s| + 1 && InsertSorted(s, v)[k] == v
    ensures forall i :: 0 <= i < k ==> InsertSorted(s, v)[i] == s[i]
    ensures forall i :: k < i <= |s| ==> InsertSorted(s, v)[i] == s[i - 1]
  {
  }

  lemma InsertSortedCount(s: seq<int>, v: int, k: nat)
    requires k == FirstNotLess(s, v)
    ensures multiset(InsertSorted(s, v)) == multiset(s) + multiset{v}
  {
    assert s == s[..k] + s[k..];
    assert InsertSorted(s, v) == s[..k] + [v] + s[k..];
  }

  /** Inserting into a sorted sequence keeps it sorted and adds exactly `v`. */
  lemma InsertSortedCorrect(s: seq<int>, v: int)
    requires Sorted(s)
    ensures Sorted(InsertSorted(s, v))
    ensures multiset(InsertSorted(s, v)) == multiset(s) + multiset{v}
    ensures |InsertSorted(s, v)| == |s| + 1
  {
    var k := FirstNotLess(s, v);
    InsertSortedCount(s, v, k);
    var r := InsertSorted(s, v);
    InsertSortedAt(s, v, k);
    forall i, j | 0 <= i < j < |r| ensures r[i] <= r[j] {
      if j < k {
        assert r[i] == s[i] && r[j] == s[j];
      } else if j == k {
        assert r[i] == s[i];
      } else if i < k {
        assert r[i] == s[i] && r[j] == s[j - 1];
        assert s[i] < v <= s[k] <= s[j - 1];
      } else if i == k {
        assert r[j] == s[j - 1] && v <= s[k] <= s[j - 1];
      } else {
        assert r[i] == s[i - 1] && r[j] == s[j - 1];
      }
    }
  }

  /** A value not below the last element of a sorted sequence goes at the end. */
  lemma InsertSortedAtEnd(s: seq<int>, v: int)
    requires Sorted(s) && s != [] && s[|s| - 1] <= v
    ensures InsertSorted(s, v) == s + [v]
  {
    var k := FirstNotLess(s, v);
    if k < |s| {
      forall i | k <= i < |s| ensures s[i] == v {
        assert v <= s[k] <= s[i] <= s[|s| - 1] <= v;
      }
      assert s[k..] + [] == s[k..];
      assert s[..k] + [v] + s[k..] == s + [v];
    }
  }

  /** A value not above the first element goes at the front. */
  lemma InsertSortedAtFront(s: seq<int>, v: int)
    requires s == [] || v <= s[0]
    ensures InsertSorted(s, v) == [v] + s
  {
  }

  /** Merging two runs, the left run's head going first when `first(left head, right head)` holds. */
  function MergeBy(a: seq<int>, b: seq<int>, first: (int, int) -> bool): (r: seq<int>)
    ensures |r| == |a| + |b|
    decreases |a| + |b|
  {
    if a == [] then b
    else if b == [] then a
    else if first(a[0], b[0]) then
      assert a == [a[0]] + a[1..];
      [a[0]] + MergeBy(a[1..], b, first)
    else
      assert b == [b[0]] + b[1..];
      [b[0]] + MergeBy(a, b[1..], first)
  }

  /** Merging keeps exactly the values of both runs. */
  lemma {:induction false} MergeByPermutes(a: seq<int>, b: seq<int>, first: (int, int) -> bool)
    ensures multiset(MergeBy(a, b, first)) == multiset(a) + multiset(b)
    decreases |a| + |b|
  {
    if a != [] && b != [] {
      if first(a[0], b[0]) {
        var t := MergeBy(a[1..], b, first);
        MergeByPermutes(a[1..], b, first);
        assert MergeBy(a, b, first) == [a[0]] + t;
        assert a == [a[0]] + a[1..];
        assert multiset([a[0]] + t) == multiset{a[0]} + multiset(t);
      } else {
        var t := MergeBy(a, b[1..], first);
        MergeByPermutes(a, b[1..], first);
        assert MergeBy(a, b, first) == [b[0]] + t;
        assert b == [b[0]] + b[1..];
        assert multiset([b[0]] + t) == multiset{b[0]} + multiset(t);
      }
    }
  }

  /** One step of `MergeBy` on the suffixes from `i` and `j`: the head `first` picks goes ahead of the merge of what remains. */
  lemma MergeByStep(a: seq<int>, b: seq<int>, i: nat, j: nat, first: (int, int) -> bool)
    requires i < |a| && j < |b|
    ensures first(a[i], b[j]) ==> MergeBy(a[i..], b[j..], first) == [a[i]] + MergeBy(a[i + 1..], b[j..], first)
    ensures !first(a[i], b[j]) ==> MergeBy(a[i..], b[j..], first) == [b[j]] + MergeBy(a[i..], b[j + 1..], first)
  {
    assert a[i..][1..] == a[i + 1..];
    assert b[j..][1..] == b[j + 1..];
  }

  /** The comparison `merge(other)` uses: the left run's head goes first when it is not greater. */
  function AtMost(x: int, y: int): bool
  {
    x <= y
  }

  /** Merging by `AtMost` is the merge by value that `MergeSort` uses. */
  lemma {:induction false} MergeByAtMost(a: seq<int>, b: seq<int>)
    ensures MergeBy(a, b, AtMost) == Merge(a, b, Id)
    decreases |a| + |b|
  {
    if a != [] && b != [] {
      if a[0] <= b[0] {
        MergeByAtMost(a[1..], b);
      } else {
        MergeByAtMost(a, b[1..]);
      }
    }
  }

  /** On sorted runs, merging by `AtMost` is the merge by value, and it is sorted. */
  lemma MergeByAtMostSorted(a: seq<int>, b: seq<int>)
    requires Sorted(a) && Sorted(b)
    ensures MergeBy(a, b, AtMost) == Merge(a, b, Id) && Sorted(Merge(a, b, Id))
  {
    MergeByAtMost(a, b);
    SortedById(a);
    SortedById(b);
    MergeSorted(a, b, Id);
    SortedById(Merge(a, b, Id));
  }

  /** What `std::sort` demands of a comparator: a strict weak order. */
  ghost predicate StrictWeakOrder(less: (int, int) -> bool)
  {
    && (forall x :: !less(x, x))
    && (forall x, y, z {:trigger less(x, y), less(y, z)} :: less(x, y) && less(y, z) ==> less(x, z))
    && (forall x, y, z :: less(x, z) ==> less(x, y) || less(y, z))
  }

  /** No element is `less` than one before it. */
  predicate SortedUnder(s: seq<int>, less: (int, int) -> bool)
  {
    forall i, j :: 0 <= i < j < |s| ==> !less(s[j], s[i])
  }

  /** `x` placed after the leading elements that are `less` than it. */
  function InsertBy(x: int, s: seq<int>, less: (int, int) -> bool): (r: seq<int>)
    ensures multiset(r) == multiset(s) + multiset{x}
    ensures |r| == |s| + 1
  {
    if s == [] then [x]
    else if less(s[0], x) then
      assert s == [s[0]] + s[1..];
      [s[0]] + InsertBy(x, s[1..], less)
    else [x] + s
  }

  /** Insertion sort, a reference for what a comparator sort produces. */
  function InsertionSortBy(s: seq<int>, less: (int, int) -> bool): (r: seq<int>)
    ensures multiset(r) == multiset(s)
    ensures |r| == |s|
  {
    if s == [] then []
    else
      assert s == [s[0]] + s[1..];
      InsertBy(s[0], InsertionSortBy(s[1..], less), less)
  }

  lemma {:induction false} InsertBySorted(x: int, s: seq<int>, less: (int, int) -> bool)
    requires StrictWeakOrder(less) && SortedUnder(s, less)
    ensures SortedUnder(InsertBy(x, s, less), less)
  {
    if s != [] {
      if less(s[0], x) {
        var t := InsertBy(x, s[1..], less);
        InsertBySorted(x, s[1..], less);
        var r := [s[0]] + t;
        forall i, j | 0 <= i < j < |r| ensures !less(r[j], r[i]) {
          if i == 0 {
            assert r[j] == t[j - 1];
            assert t[j - 1] in multiset(t);
            assert r[j] in multiset(s[1..]) + multiset{x};
            if r[j] == x {
              var y := s[0];
              assert less(y, x);
              assert less(x, y) ==> less(x, x);
            } else {
              assert r[j] in s[1..];
              var m :| 0 <= m < |s[1..]| && s[1..][m] == r[j];
              assert s[m + 1] == r[j];
            }
          } else {
            assert r[i] == t[i - 1] && r[j] == t[j - 1];
          }
        }
      } else {
        var r := [x] + s;
        forall i, j | 0 <= i < j < |r| ensures !less(r[j], r[i]) {
          if i == 0 {
            assert r[j] == s[j - 1];
            if j > 1 {
              assert !less(s[j - 1], s[0]);
              var y, z := s[j - 1], s[0];
              assert less(y, x) ==> less(y, z) || less(z, x);
            }
          } else {
            assert r[i] == s[i - 1] && r[j] == s[j - 1];
          }
        }
      }
    }
  }

  /** Under a strict weak order, the reference sort orders its output. */
  lemma {:induction false} InsertionSortBySorted(s: seq<int>, less: (int, int) -> bool)
    requires StrictWeakOrder(less)
    ensures SortedUnder(InsertionSortBy(s, less), less)
  {
    if s != [] {
      InsertionSortBySorted(s[1..], less);
      InsertBySorted(s[0], InsertionSortBy(s[1..], less), less);
    }
  }

  /** The reference sort rearranges its input and, under a strict weak order, orders it. */
  lemma InsertionSortByCorrect(s: seq<int>, less: (int, int) -> bool)
    ensures |InsertionSortBy(s, less)| == |s| && multiset(InsertionSortBy(s, less)) == multiset(s)
    ensures StrictWeakOrder(less) ==> SortedUnder(InsertionSortBy(s, less), less)
  {
    if StrictWeakOrder(less) {
      InsertionSortBySorted(s, less);
    }
  }

  /** No element occurs twice. */
  predicate Distinct<T(==)>(s: seq<T>)
  {
    forall i, j :: 0 <= i < j < |s| ==> s[i] != s[j]
  }

  lemma {:induction false} DistinctCounts<T>(s: seq<T>)
    ensures Distinct(s) <==> forall x :: multiset(s)[x] <= 1
  {
    if s != [] {
      var t := s[1..];
      assert s == [s[0]] + t;
      DistinctCounts(t);
      if Distinct(s) {
        assert Distinct(t) by {
          forall i, j | 0 <= i < j < |t| ensures t[i] != t[j] {
            assert t[i] == s[i + 1] && t[j] == s[j + 1];
          }
        }
        forall j | 0 <= j < |t| ensures t[j] != s[0] {
          assert t[j] == s[j + 1];
        }
        assert s[0] !in t;
      }
      if forall x :: multiset(s)[x] <= 1 {
        assert forall x :: multiset(t)[x] <= multiset(s)[x];
        assert multiset(t)[s[0]] == 0;
        forall i, j | 0 <= i < j < |s| ensures s[i] != s[j] {
          if i == 0 {
            assert s[j] == t[j - 1];
            assert s[j] in multiset(t);
          } else {
            assert s[i] == t[i - 1] && s[j] == t[j - 1];
          }
        }
      }
    }
  }

  /** Rearranging a sequence keeps its elements distinct. */
  lemma DistinctPermutation<T>(s: seq<T>, t: seq<T>)
    requires Distinct(s) && multiset(s) == multiset(t)
    ensures Distinct(t)
  {
    DistinctCounts(s);
    DistinctCounts(t);
  }
}
