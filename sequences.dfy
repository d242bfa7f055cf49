/**
 * Specification functions over the value sequence a container holds
 * (front to back for the list and the queue, top to bottom for the stack),
 * and the lemmas the containers' proofs use.
 */
module Sequences {

  /** Non-decreasing under the default order `<=` of the element type. */
  predicate Sorted(s: seq<int>)
  {
    forall i, j :: 0 <= i < j < |s| ==> s[i] <= s[j]
  }

  /** Concatenation is associative; stated once so that large proof contexts need not rederive it. */
  lemma ConcatAssoc<T>(a: seq<T>, b: seq<T>, c: seq<T>)
    ensures (a + b) + c == a + (b + c)
  {
  }

  /** Appending keeps a sequence sorted exactly when the new element is not below the old last one. */
  lemma SortedAppend(s: seq<int>, x: int)
    ensures Sorted(s + [x]) <==> Sorted(s) && (s == [] || s[|s| - 1] <= x)
  {
    if Sorted(s) && (s == [] || s[|s| - 1] <= x) {
      forall i, j | 0 <= i < j < |s| + 1 ensures (s + [x])[i] <= (s + [x])[j] {
        if j == |s| {
          assert s[i] <= s[|s| - 1];
        }
      }
    }
    if Sorted(s + [x]) {
      forall i, j | 0 <= i < j < |s| ensures s[i] <= s[j] {
        assert s[i] == (s + [x])[i] && s[j] == (s + [x])[j];
      }
      if s != [] {
        assert s[|s| - 1] == (s + [x])[|s| - 1] && x == (s + [x])[|s|];
      }
    }
  }

  /** Prepending keeps a sequence sorted exactly when the new element is not above the old first one. */
  lemma SortedPrepend(s: seq<int>, x: int)
    ensures Sorted([x] + s) <==> Sorted(s) && (s == [] || x <= s[0])
  {
    var r := [x] + s;
    if Sorted(s) && (s == [] || x <= s[0]) {
      forall i, j | 0 <= i < j < |r| ensures r[i] <= r[j] {
        if i == 0 {
          assert r[j] == s[j - 1] && s[0] <= s[j - 1];
        } else {
          assert r[i] == s[i - 1] && r[j] == s[j - 1];
        }
      }
    }
    if Sorted(r) {
      forall i, j | 0 <= i < j < |s| ensures s[i] <= s[j] {
        assert s[i] == r[i + 1] && s[j] == r[j + 1];
      }
      if s != [] {
        assert r[0] == x && r[1] == s[0] && r[0] <= r[1];
      }
    }
  }

  /** Each element is at most its successor. */
  predicate AdjacentSorted(s: seq<int>)
  {
    forall i :: 0 <= i < |s| - 1 ==> s[i] <= s[i + 1]
  }

  /** Comparing neighbours decides sortedness: order is transitive. */
  lemma {:induction false} AdjacentSortedIsSorted(s: seq<int>)
    ensures AdjacentSorted(s) <==> Sorted(s)
  {
    if s != [] && AdjacentSorted(s) {
      var t := s[1..];
      assert AdjacentSorted(t) by {
        forall i | 0 <= i < |t| - 1 ensures t[i] <= t[i + 1] {
          assert t[i] == s[i + 1] && t[i + 1] == s[i + 2];
        }
      }
      AdjacentSortedIsSorted(t);
      assert s == [s[0]] + t;
      SortedPrepend(t, s[0]);
    }
  }

  /** Removing one element keeps a sequence sorted. */
  lemma SortedRemove(s: seq<int>, k: nat)
    requires k < |s|
    ensures Sorted(s) ==> Sorted(s[..k] + s[k + 1..])
  {
    var r := s[..k] + s[k + 1..];
    forall i, j | 0 <= i < j < |r| && Sorted(s) ensures r[i] <= r[j] {
      var i' := if i < k then i else i + 1;
      var j' := if j < k then j else j + 1;
      assert r[i] == s[i'] && r[j] == s[j'];
    }
  }

  /** Removing the element just after a kept prefix shortens the removed gap by one. */
  lemma RemoveAfterPrefix<T>(s: seq<T>, a: nat, j: nat)
    requires a < j <= |s|
    ensures var t := s[..a] + s[j - 1..]; t[..a] + t[a + 1..] == s[..a] + s[j..]
  {
    var t := s[..a] + s[j - 1..];
    assert t[..a] == s[..a];
    assert t[a + 1..] == s[j..];
  }

  /** Removing the first element of a shared suffix keeps the rest shared. */
  lemma RemoveFromSuffix<T>(s: seq<T>, t: seq<T>, a: nat, j: nat)
    requires a < |s| && j <= |t| && s[a..] == t[j..]
    ensures j < |t| && (s[..a] + s[a + 1..])[a..] == t[j + 1..]
  {
    assert |s[a..]| == |t[j..]|;
    assert (s[..a] + s[a + 1..])[a..] == s[a + 1..];
    assert s[a + 1..] == s[a..][1..];
  }

  /** Two equal suffixes stay equal when both drop their first element. */
  lemma SuffixAdvance<T>(s: seq<T>, t: seq<T>, a: nat, j: nat)
    requires a < |s| && j <= |t| && s[a..] == t[j..]
    ensures j < |t| && s[a] == t[j] && s[a + 1..] == t[j + 1..]
  {
    assert s[a..][0] == t[j..][0];
    assert s[a + 1..] == s[a..][1..] && t[j + 1..] == t[j..][1..];
  }

  /** The sequence read back to front. */
  function Reversed<T>(s: seq<T>): (r: seq<T>)
    ensures |r| == |s|
    ensures forall i :: 0 <= i < |s| ==> r[i] == s[|s| - 1 - i]
  {
    if s == [] then [] else Reversed(s[1..]) + [s[0]]
  }

  /** Reversing twice gives the sequence back. */
  lemma ReversedInvolution<T>(s: seq<T>)
    ensures Reversed(Reversed(s)) == s
  {
    var r := Reversed(Reversed(s));
    assert |r| == |s|;
    forall i | 0 <= i < |s| ensures r[i] == s[i] {
      assert r[i] == Reversed(s)[|s| - 1 - i];
    }
  }

  /** `r` lists the values of `s` from the last to the first. */
  predicate IsReversal(r: seq<int>, s: seq<int>)
  {
    |r| == |s| && forall i :: 0 <= i < |s| ==> r[i] == s[|s| - 1 - i]
  }

  /** The pointwise reversal is exactly `Reversed`. */
  lemma IsReversalReversed(r: seq<int>, s: seq<int>)
    ensures IsReversal(r, s) <==> r == Reversed(s)
  {
    if IsReversal(r, s) {
      assert forall i :: 0 <= i < |r| ==> r[i] == Reversed(s)[i];
    }
  }

  /** Putting `x` in front of the reversal of `s` gives the reversal of `s + [x]`. */
  lemma IsReversalCons(r: seq<int>, s: seq<int>, x: int)
    requires IsReversal(r, s)
    ensures IsReversal([x] + r, s + [x])
  {
    forall i | 0 < i <= |s| ensures ([x] + r)[i] == (s + [x])[|s| - i] {
      assert ([x] + r)[i] == r[i - 1];
    }
  }

  /** Putting `w[m - 1]` in front of `w[m..] + base` gives `w[m - 1..] + base`. */
  lemma PrependSlice(w: seq<int>, m: nat, base: seq<int>)
    requires 0 < m <= |w|
    ensures [w[m - 1]] + (w[m..] + base) == w[m - 1..] + base
  {
    assert w[m - 1..] == [w[m - 1]] + w[m..];
  }

  /** Whether `ok` holds of every pair of neighbours. */
  predicate AdjacentBy(s: seq<int>, ok: (int, int) -> bool)
  {
    forall i :: 0 <= i < |s| - 1 ==> ok(s[i], s[i + 1])
  }

  /** `f` applied to every element. */
  function MapSeq(s: seq<int>, f: int -> int): (r: seq<int>)
    ensures |r| == |s|
    ensures forall i :: 0 <= i < |s| ==> r[i] == f(s[i])
  {
    if s == [] then [] else [f(s[0])] + MapSeq(s[1..], f)
  }

  /** The predicate that holds of exactly `v`. */
  function EqualTo(v: int): int -> bool
  {
    x => x == v
  }

  /** The complement of a predicate. */
  function Negate(p: int -> bool): int -> bool
  {
    x => !p(x)
  }

  /** The elements of `s` that satisfy `keep`, in their original order. */
  function Filter(s: seq<int>, keep: int -> bool): (r: seq<int>)
    ensures |r| <= |s|
    ensures forall i :: 0 <= i < |r| ==> keep(r[i])
  {
    if s == [] then []
    else
      var init := s[..|s| - 1];
      assert s == init + [s[|s| - 1]];
      Filter(init, keep) + (if keep(s[|s| - 1]) then [s[|s| - 1]] else [])
  }

  /** Filtering distributes over concatenation. */
  lemma {:induction false} FilterAppend(a: seq<int>, b: seq<int>, keep: int -> bool)
    ensures Filter(a + b, keep) == Filter(a, keep) + Filter(b, keep)
    decreases |b|
  {
    if b == [] {
      assert a + b == a;
    } else {
      var b' := b[..|b| - 1];
      assert (a + b)[..|a + b| - 1] == a + b';
      FilterAppend(a, b', keep);
    }
  }

  /** Filtering one more element of `s`. */
  lemma FilterStep(s: seq<int>, j: nat, keep: int -> bool)
    requires j < |s|
    ensures Filter(s[..j + 1], keep) == Filter(s[..j], keep) + if keep(s[j]) then [s[j]] else []
  {
    assert s[..j + 1][..j] == s[..j];
  }

  /** Filtering a sequence with one more element in front. */
  lemma FilterCons(x: int, s: seq<int>, keep: int -> bool)
    ensures Filter([x] + s, keep) == (if keep(x) then [x] else []) + Filter(s, keep)
  {
    FilterAppend([x], s, keep);
    FilterSingleton(x, keep);
  }

  /**
   * A scan that filters `c` in place, with everything before `a` already
   * kept: keeping `c[a]` moves past it, dropping it removes it, and either
   * way the kept prefix followed by the filtered rest stays the same.
   */
  lemma FilterScan(c: seq<int>, a: nat, keep: int -> bool)
    requires a < |c|
    ensures keep(c[a]) ==> c[..a] + Filter(c[a..], keep) == c[..a + 1] + Filter(c[a + 1..], keep)
    ensures var d := c[..a] + c[a + 1..];
      !keep(c[a]) ==> c[..a] + Filter(c[a..], keep) == d[..a] + Filter(d[a..], keep)
  {
    assert c[a..] == [c[a]] + c[a + 1..];
    FilterCons(c[a], c[a + 1..], keep);
    var d := c[..a] + c[a + 1..];
    assert d[..a] == c[..a] && d[a..] == c[a + 1..];
    assert c[..a + 1] == c[..a] + [c[a]];
  }

  /** Filtering the one-element sequence. */
  lemma FilterSingleton(x: int, keep: int -> bool)
    ensures Filter([x], keep) == if keep(x) then [x] else []
  {
    assert [x][..0] == [];
  }

  /** A filter that keeps everything changes nothing. */
  lemma {:induction false} FilterAll(s: seq<int>, keep: int -> bool)
    requires forall i :: 0 <= i < |s| ==> keep(s[i])
    ensures Filter(s, keep) == s
  {
    if s != [] {
      var init := s[..|s| - 1];
      assert forall i :: 0 <= i < |init| ==> init[i] == s[i];
      FilterAll(init, keep);
      assert keep(s[|s| - 1]);
      assert init + [s[|s| - 1]] == s;
    }
  }

  /** Filtering keeps every occurrence of a kept value and drops every other one. */
  lemma {:induction false} FilterCounts(s: seq<int>, keep: int -> bool)
    ensures forall x :: multiset(Filter(s, keep))[x] == if keep(x) then multiset(s)[x] else 0
  {
    if s != [] {
      var init := s[..|s| - 1];
      FilterCounts(init, keep);
      assert s == init + [s[|s| - 1]];
    }
  }

  /** Filtering keeps a sorted sequence sorted. */
  lemma {:induction false} FilterSorted(s: seq<int>, keep: int -> bool)
    requires Sorted(s)
    ensures Sorted(Filter(s, keep))
  {
    if s != [] {
      var init := s[..|s| - 1];
      var last := s[|s| - 1];
      FilterSorted(init, keep);
      var f := Filter(init, keep);
      if keep(last) {
        if f != [] {
          FilterCounts(init, keep);
          assert multiset(f)[f[|f| - 1]] > 0;
          assert f[|f| - 1] in multiset(init);
        }
        SortedAppend(f, last);
      }
    }
  }

  /** Removing the occurrences of `v`: what is removed is exactly the count of `v`, and no `v` is left. */
  lemma {:induction false} FilterOutCount(s: seq<int>, v: int)
    ensures |s| - |Filter(s, Negate(EqualTo(v)))| == multiset(s)[v]
    ensures v !in Filter(s, Negate(EqualTo(v)))
    ensures multiset(Filter(s, Negate(EqualTo(v)))) == multiset(s)[v := 0]
  {
    if s != [] {
      var init := s[..|s| - 1];
      FilterOutCount(init, v);
      assert s == init + [s[|s| - 1]];
    }
  }

  /** The least index holding `v`, or `|s|` when `v` does not occur. */
  function IndexOf(s: seq<int>, v: int): (k: nat)
    ensures k <= |s|
    ensures k < |s| ==> s[k] == v
    ensures forall i :: 0 <= i < k ==> s[i] != v
    ensures k == |s| <==> v !in s
  {
    if s == [] then 0
    else if s[0] == v then 0
    else 1 + IndexOf(s[1..], v)
  }

  /** The greatest index holding `v`, or -1 when `v` does not occur. */
  function LastIndexOf(s: seq<int>, v: int): (k: int)
    ensures -1 <= k < |s|
    ensures k >= 0 ==> s[k] == v
    ensures forall i :: k < i < |s| ==> s[i] != v
    ensures k == -1 <==> v !in s
  {
    if s == [] then -1
    else if s[|s| - 1] == v then |s| - 1
    else LastIndexOf(s[..|s| - 1], v)
  }

  /** The values `s` holds after dropping its first `v`, the others kept in order. */
  function RemoveFirstOf(s: seq<int>, v: int): seq<int>
  {
    if s == [] then []
    else if s[0] == v then s[1..]
    else [s[0]] + RemoveFirstOf(s[1..], v)
  }

  /** Dropping the first `v` cuts out the element at its index, and changes nothing when there is none. */
  lemma {:induction false} RemoveFirstOfCut(s: seq<int>, v: int)
    ensures var k := IndexOf(s, v);
      RemoveFirstOf(s, v) == if k < |s| then s[..k] + s[k + 1..] else s
  {
    if s != [] && s[0] != v {
      var t := s[1..];
      RemoveFirstOfCut(t, v);
      var k := IndexOf(t, v);
      assert IndexOf(s, v) == k + 1;
      if k < |t| {
        ConsCut(s, k);
      } else {
        assert [s[0]] + t == s;
      }
    }
  }

  /** Cutting out index `k` of `s[1..]` and putting `s[0]` back in front cuts out index `k + 1` of `s`. */
  lemma ConsCut(s: seq<int>, k: nat)
    requires k + 1 < |s|
    ensures [s[0]] + (s[1..][..k] + s[1..][k + 1..]) == s[..k + 1] + s[k + 2..]
  {
    assert [s[0]] + s[1..][..k] == s[..k + 1];
    assert s[1..][k + 1..] == s[k + 2..];
  }

  /** Dropping the first `v` takes away exactly one `v` when there is one, and nothing otherwise. */
  lemma {:induction false} RemoveFirstOfCounts(s: seq<int>, v: int)
    ensures v in s ==> multiset(RemoveFirstOf(s, v)) == multiset(s) - multiset{v}
    ensures v !in s ==> RemoveFirstOf(s, v) == s
  {
    RemoveFirstOfCut(s, v);
    var k := IndexOf(s, v);
    if k < |s| {
      CutCounts(s, k);
    }
  }

  /** Cutting out index `k` takes away exactly one `s[k]`. */
  lemma CutCounts(s: seq<int>, k: nat)
    requires k < |s|
    ensures multiset(s[..k] + s[k + 1..]) == multiset(s) - multiset{s[k]}
  {
    var p, q := s[..k], s[k + 1..];
    assert s == p + [s[k]] + q;
    assert multiset(s) == multiset(p) + multiset{s[k]} + multiset(q);
  }

  /** Scanning one more value: the first `v` met is dropped, every other value is kept. */
  lemma {:induction false} RemoveFirstOfSnoc(p: seq<int>, x: int, v: int)
    ensures RemoveFirstOf(p + [x], v) ==
      if v in p then RemoveFirstOf(p, v) + [x]
      else if x == v then p else p + [x]
  {
    if p != [] {
      assert (p + [x])[1..] == p[1..] + [x];
      RemoveFirstOfSnoc(p[1..], x, v);
      if p[0] != v {
        assert v in p <==> v in p[1..];
        assert [p[0]] + p[1..] == p;
      }
    }
  }

  /** `RemoveFirstOfSnoc` for the prefixes of `c`. */
  lemma RemoveFirstOfStep(c: seq<int>, i: nat, v: int)
    requires i < |c|
    ensures (v in c[..i + 1]) == (v in c[..i] || c[i] == v)
    ensures v !in c[..i] ==> RemoveFirstOf(c[..i], v) == c[..i]
    ensures RemoveFirstOf(c[..i + 1], v) ==
      if v in c[..i] then RemoveFirstOf(c[..i], v) + [c[i]]
      else if c[i] == v then c[..i] else c[..i] + [c[i]]
  {
    assert c[..i + 1] == c[..i] + [c[i]];
    RemoveFirstOfSnoc(c[..i], c[i], v);
    RemoveFirstOfCut(c[..i], v);
  }

  /** When `k` holds the first `v`, dropping the first `v` cuts out exactly index `k`. */
  lemma RemoveFirstOfAt(s: seq<int>, v: int, k: nat)
    requires k < |s| && s[k] == v && v !in s[..k]
    ensures RemoveFirstOf(s, v) == s[..k] + s[k + 1..]
  {
    assert forall j :: 0 <= j < k ==> s[..k][j] == s[j];
    assert IndexOf(s, v) == k;
    RemoveFirstOfCut(s, v);
  }

  /** Folding from the front: `f(...f(f(init, s[0]), s[1])..., s[|s|-1])`. */
  function FoldLeft(f: (int, int) -> int, init: int, s: seq<int>): int
  {
    if s == [] then init else f(FoldLeft(f, init, s[..|s| - 1]), s[|s| - 1])
  }

  /** Folding an extended sequence folds the extension last. */
  lemma FoldLeftAppend(f: (int, int) -> int, init: int, s: seq<int>, x: int)
    ensures FoldLeft(f, init, s + [x]) == f(FoldLeft(f, init, s), x)
  {
    assert (s + [x])[..|s|] == s;
  }

  /** Lexicographic order: element by element, a strict prefix being the smaller. */
  function LexLess(a: seq<int>, b: seq<int>): bool
  {
    if a == [] then b != []
    else if b == [] then false
    else if a[0] < b[0] then true
    else if a[0] > b[0] then false
    else LexLess(a[1..], b[1..])
  }

  /** No sequence is below itself. */
  lemma {:induction false} LexLessIrreflexive(a: seq<int>)
    ensures !LexLess(a, a)
  {
    if a != [] {
      LexLessIrreflexive(a[1..]);
    }
  }

  /** Lexicographic order is transitive. */
  lemma {:induction false} LexLessTransitive(a: seq<int>, b: seq<int>, c: seq<int>)
    requires LexLess(a, b) && LexLess(b, c)
    ensures LexLess(a, c)
  {
    if a != [] && b != [] && c != [] && a[0] == b[0] == c[0] {
      LexLessTransitive(a[1..], b[1..], c[1..]);
    }
  }

  /** Any two sequences are equal or one is below the other, and never both ways. */
  lemma {:induction false} LexLessTrichotomy(a: seq<int>, b: seq<int>)
    ensures a == b || LexLess(a, b) || LexLess(b, a)
    ensures !(LexLess(a, b) && LexLess(b, a))
  {
    if a != [] && b != [] && a[0] == b[0] {
      LexLessTrichotomy(a[1..], b[1..]);
      if a[1..] == b[1..] {
        assert a == [a[0]] + a[1..] && b == [b[0]] + b[1..];
      }
    }
  }

  /** A strict prefix is below the longer sequence. */
  lemma {:induction false} LexLessPrefix(a: seq<int>, b: seq<int>)
    requires |a| < |b| && a == b[..|a|]
    ensures LexLess(a, b)
  {
    if a != [] {
      assert a[1..] == b[1..][..|a| - 1];
      LexLessPrefix(a[1..], b[1..]);
    }
  }

  /**
   * Dropping, after the kept element `last`, every element that `same`
   * relates to the most recently kept element.
   */
  function DedupAfter(last: int, s: seq<int>, same: (int, int) -> bool): (r: seq<int>)
    ensures |r| <= |s|
    decreases |s|
  {
    if s == [] then []
    else
      assert s == [s[0]] + s[1..];
      if same(last, s[0]) then DedupAfter(last, s[1..], same)
      else [s[0]] + DedupAfter(s[0], s[1..], same)
  }

  /** The first element followed by the elements that survive adjacent-duplicate removal. */
  function Dedup(s: seq<int>, same: (int, int) -> bool): (r: seq<int>)
    ensures |r| <= |s|
    ensures s != [] ==> r != [] && r[0] == s[0]
  {
    if s == [] then [] else [s[0]] + DedupAfter(s[0], s[1..], same)
  }

  /** Equality of elements, the relation `unique()` uses. */
  function Same(a: int, b: int): bool
  {
    a == b
  }

  /** No two neighbours are equal. */
  predicate NoAdjacentDuplicates(s: seq<int>)
  {
    forall i :: 0 <= i < |s| - 1 ==> s[i] != s[i + 1]
  }

  /**
   * What a scan that removes neighbouring duplicates in place produces when
   * the kept part ends at `c[a]`: that part, then the rest with duplicates of
   * `c[a]` and of each later kept value dropped.
   */
  function DedupPending(c: seq<int>, a: nat, same: (int, int) -> bool): seq<int>
    requires a < |c|
  {
    c[..a] + [c[a]] + DedupAfter(c[a], c[a + 1..], same)
  }

  /** Dropping `c[a + 1]` when it is `same` as `c[a]`, or else moving on to it, leaves the scan's result unchanged. */
  lemma DedupScan(c: seq<int>, a: nat, same: (int, int) -> bool)
    requires a + 1 < |c|
    ensures same(c[a], c[a + 1]) ==> DedupPending(c, a, same) == DedupPending(c[..a + 1] + c[a + 2..], a, same)
    ensures !same(c[a], c[a + 1]) ==> DedupPending(c, a, same) == DedupPending(c, a + 1, same)
  {
    var d := c[..a + 1] + c[a + 2..];
    assert c[a + 1..] == [c[a + 1]] + c[a + 2..];
    assert c[a + 1..][1..] == c[a + 2..];
    assert d[..a] == c[..a] && d[a] == c[a] && d[a + 1..] == c[a + 2..];
    assert c[..a + 1] == c[..a] + [c[a]];
  }

  /** The scan's result at its start, and once the kept part reaches the last element. */
  lemma DedupScanEnds(c: seq<int>, same: (int, int) -> bool)
    requires c != []
    ensures Dedup(c, same) == DedupPending(c, 0, same)
    ensures DedupPending(c, |c| - 1, same) == c
  {
    var a := |c| - 1;
    assert c[..0] == [];
    assert c[a + 1..] == [] && c[..a] + [c[a]] == c;
  }

  lemma {:induction false} DedupAfterNoAdjacent(last: int, s: seq<int>)
    ensures NoAdjacentDuplicates([last] + DedupAfter(last, s, Same))
    decreases |s|
  {
    if s != [] {
      if s[0] == last {
        DedupAfterNoAdjacent(last, s[1..]);
      } else {
        DedupAfterNoAdjacent(s[0], s[1..]);
      }
    }
  }

  lemma {:induction false} DedupAfterIdentity(last: int, s: seq<int>)
    requires NoAdjacentDuplicates([last] + s)
    ensures DedupAfter(last, s, Same) == s
    decreases |s|
  {
    if s != [] {
      var t := [last] + s;
      assert t[0] == last && t[1] == s[0];
      assert t[0] != t[1];
      var u := [s[0]] + s[1..];
      assert u == s;
      forall i | 0 <= i < |u| - 1 ensures u[i] != u[i + 1] {
        assert u[i] == t[i + 1] && u[i + 1] == t[i + 2];
      }
      DedupAfterIdentity(s[0], s[1..]);
    }
  }

  /** The result of `unique()` has no equal neighbours. */
  lemma DedupNoAdjacent(s: seq<int>)
    ensures NoAdjacentDuplicates(Dedup(s, Same))
  {
    if s != [] {
      DedupAfterNoAdjacent(s[0], s[1..]);
    }
  }

  /** Applying `unique()` twice gives the same result as applying it once. */
  lemma DedupIdempotent(s: seq<int>)
    ensures Dedup(Dedup(s, Same), Same) == Dedup(s, Same)
  {
    if s != [] {
      var d := Dedup(s, Same);
      DedupAfterNoAdjacent(s[0], s[1..]);
      assert d == [s[0]] + d[1..];
      DedupAfterIdentity(s[0], d[1..]);
    }
  }
}
