/**
 * The doubly-linked `List<T>` of List.h with `T` fixed to `int`.
 *
 * Each list owns a chain of `Node`s linked by `next` and `prev`, the
 * `head`/`tail` links, the element count `size` and the `isSorted` flag,
 * a conservative witness that the values are non-decreasing. The ghost
 * field `nodes` lists the nodes from head to tail and `Contents` their
 * values; `Repr` is the list object together with its nodes.
 */
module LinkedList {
  import opened Wrappers
  import opened Sequences
  import opened Sorting

  /** A list node: its value and the links to its neighbours. */
  class Node {
    var data: int
    var next: Node?
    var prev: Node?

    constructor (value: int)
      ensures data == value && next == null && prev == null
    {
      data := value;
      next := null;
      prev := null;
    }
  }

  /** The nodes occurring in `ns`. */
  ghost function Elements(ns: seq<Node>): set<Node>
  {
    set n | n in ns
  }

  /** `ns` is the chain reached from `h` by following `next` until null. */
  ghost predicate Chain(h: Node?, ns: seq<Node>)
    reads Elements(ns)`next
  {
    && (if ns == [] then h == null else h == ns[0])
    && (forall i {:trigger ns[i].next} :: 0 <= i < |ns| ==> ns[i].next == if i + 1 < |ns| then ns[i + 1] else null)
  }

  lemma ChainTail(h: Node?, ns: seq<Node>)
    requires Chain(h, ns) && ns != []
    ensures Chain(ns[0].next, ns[1..])
  {
    var t := ns[1..];
    forall i | 0 <= i < |t| ensures t[i].next == if i + 1 < |t| then t[i + 1] else null {
      assert t[i] == ns[i + 1];
      if i + 1 < |t| {
        assert t[i + 1] == ns[i + 2];
      }
    }
    if t != [] {
      assert t[0] == ns[1];
    }
  }

  /** The index of a node in a sequence of distinct nodes. */
  ghost function Position(ns: seq<Node>, n: Node): (k: nat)
    requires n in ns
    ensures k < |ns| && ns[k] == n
  {
    if ns[0] == n then 0 else 1 + Position(ns[1..], n)
  }

  /** The position a cursor denotes: a node's index, or the end for null. */
  ghost function CursorIndex(ns: seq<Node>, pos: Node?): (k: nat)
    requires pos == null || pos in ns
    ensures k <= |ns| && (pos == null <==> k == |ns|) && (pos != null ==> ns[k] == pos)
  {
    if pos == null then |ns| else Position(ns, pos)
  }

  /** The key a node had in a snapshot of node values. */
  function KeyOf(m: map<Node, int>): Node -> int
  {
    n => if n in m then m[n] else 0
  }

  /** Every node of `ns` holds the value the snapshot `m` records for it. */
  ghost predicate Snapshot(ns: seq<Node>, m: map<Node, int>)
    reads Elements(ns)`data
  {
    forall n :: n in ns ==> n in m && m[n] == n.data
  }

  /** The values the nodes of `ns` hold now. */
  ghost function SnapshotOf(ns: seq<Node>): (m: map<Node, int>)
    reads Elements(ns)`data
    ensures Snapshot(ns, m)
  {
    map n | n in ns :: n.data
  }

  /** No node occurs in both `a` and `b`. */
  ghost predicate Apart(a: seq<Node>, b: seq<Node>)
  {
    forall n :: n in a ==> n !in b
  }

  /** Sequences with the same elements counted with multiplicity have the same members. */
  lemma SameMembers(s: seq<Node>, t: seq<Node>)
    requires multiset(s) == multiset(t)
    ensures forall n :: n in s <==> n in t
  {
    forall n ensures n in s <==> n in t {
      assert n in s <==> n in multiset(s);
      assert n in t <==> n in multiset(t);
    }
  }

  /** The first of distinct nodes is not among the rest, which are distinct too. */
  lemma DistinctTail(ns: seq<Node>)
    requires Distinct(ns) && ns != []
    ensures Distinct(ns[1..]) && ns[0] !in ns[1..]
  {
    DistinctSplit(ns, 1);
    assert ns[..1] == [ns[0]];
  }

  /** A node missing from `s` is missing from every permutation of `s`. */
  lemma NotAmong(n: Node, t: seq<Node>, s: seq<Node>)
    requires multiset(t) == multiset(s) && n !in s
    ensures n !in t
  {
    assert n !in multiset(s);
  }

  /** Cutting a chain of distinct nodes gives two chains of distinct nodes sharing none. */
  lemma DistinctSplit(ns: seq<Node>, i: nat)
    requires Distinct(ns) && i <= |ns|
    ensures Distinct(ns[..i]) && Distinct(ns[i..]) && Apart(ns[..i], ns[i..])
  {
    var a, b := ns[..i], ns[i..];
    forall x | x in a ensures x !in b {
      var p :| 0 <= p < |a| && a[p] == x;
      forall q | 0 <= q < |b| ensures b[q] != x {
        assert b[q] == ns[i + q] && x == ns[p];
      }
    }
    forall p, q | 0 <= p < q < |b| ensures b[p] != b[q] {
      assert b[p] == ns[i + p] && b[q] == ns[i + q];
    }
  }

  /** Linking `n` in front of a chain it is not part of extends the chain. */
  lemma ChainCons(n: Node, h: Node?, ns: seq<Node>)
    requires Chain(h, ns) && n !in ns && n.next == h
    ensures Chain(n, [n] + ns)
  {
    var s := [n] + ns;
    forall t | 0 <= t < |s| ensures s[t].next == if t + 1 < |s| then s[t + 1] else null {
      if t > 0 {
        assert s[t] == ns[t - 1];
      }
    }
  }

  /** A permutation of distinct nodes is distinct and holds only nodes of the original. */
  lemma PermutedWithin(t: seq<Node>, s: seq<Node>)
    requires Distinct(s) && multiset(t) == multiset(s)
    ensures Distinct(t) && forall n :: n in t ==> n in s
  {
    DistinctPermutation(s, t);
    SameMembers(t, s);
  }

  /** Any nodes taken from `ns` hold the values its snapshot records. */
  lemma SnapshotWithin(ns: seq<Node>, ls: seq<Node>, m: map<Node, int>)
    requires Snapshot(ns, m) && forall n :: n in ls ==> n in ns
    ensures Snapshot(ls, m)
  {
  }

  /** Distinct nodes denote distinct cursors: two positions reaching the same node, or both the end, are equal. */
  lemma SameCursor(ns: seq<Node>, j: nat, b: nat)
    requires Distinct(ns) && j <= b <= |ns|
    requires (if j < |ns| then ns[j] else null) == (if b < |ns| then ns[b] else null)
    ensures j == b
  {
  }

  /** Sorting nodes by their snapshot values sorts the values themselves. */
  lemma SortedKeys(ns: seq<Node>, cs: seq<int>, m: map<Node, int>)
    requires |ns| == |cs| && forall i :: 0 <= i < |ns| ==> ns[i] in m && m[ns[i]] == cs[i]
    ensures Keys(MergeSort(ns, KeyOf(m)), KeyOf(m)) == MergeSort(cs, Id) && Sorted(MergeSort(cs, Id))
  {
    MergeSortKeys(ns, KeyOf(m));
    assert Keys(ns, KeyOf(m)) == cs;
    MergeSortIsSort(cs);
  }

  /** Nodes that each lie in `r` form a subset of `r`. */
  lemma ElementsWithin(ns: seq<Node>, r: set<object>)
    requires forall i :: 0 <= i < |ns| ==> ns[i] in r
    ensures Elements(ns) <= r
  {
    forall n | n in Elements(ns) ensures n in r {
      var k :| 0 <= k < |ns| && ns[k] == n;
    }
  }

  /** A permutation of distinct nodes within `r` is distinct, within `r`, and has the same members. */
  lemma PermutedNodes(ns: seq<Node>, rs: seq<Node>, r: set<object>)
    requires multiset(ns) == multiset(rs) && Distinct(ns) && forall i :: 0 <= i < |ns| ==> ns[i] in r
    ensures Distinct(rs) && Elements(rs) == Elements(ns)
    ensures forall i :: 0 <= i < |rs| ==> rs[i] in r
  {
    SameMembers(ns, rs);
    DistinctPermutation(ns, rs);
    forall i | 0 <= i < |rs| ensures rs[i] in r {
      assert rs[i] in ns;
      var k :| 0 <= k < |ns| && ns[k] == rs[i];
    }
  }

  /** Under a snapshot, the snapshot keys of the nodes are their values. */
  lemma SnapshotData(rs: seq<Node>, m: map<Node, int>, ts: seq<int>)
    requires Snapshot(rs, m) && Keys(rs, KeyOf(m)) == ts
    ensures forall i :: 0 <= i < |rs| ==> rs[i].data == ts[i]
  {
    forall i | 0 <= i < |rs| ensures rs[i].data == ts[i] {
      assert rs[i] in rs;
      assert Keys(rs, KeyOf(m))[i] == KeyOf(m)(rs[i]);
    }
  }

  /** A snapshot of some nodes covers any nodes among them. */
  lemma SubSnapshot(ns: seq<Node>, rs: seq<Node>, m: map<Node, int>)
    requires Snapshot(ns, m) && Elements(rs) <= Elements(ns)
    ensures Snapshot(rs, m)
  {
    forall n | n in rs ensures n in m && m[n] == n.data {
      assert n in Elements(rs);
    }
  }

  /**
   * `forEach` as written (List.h:1574-1580) keeps the flag even though the
   * function it applies need not preserve the order: negating the values of
   * the sorted list [1, 2] leaves the flag set over [-1, -2].
   */
  lemma ForEachFlagCounterexample()
    ensures Sorted([1, 2]) && !Sorted(MapSeq([1, 2], x => -x))
  {
    var r := MapSeq([1, 2], x => -x);
    assert r[0] == -1 && r[1] == -2;
  }

  /** Nodes merge-sorted by their snapshot values are distinct, have the same members, and hold the merge-sorted values. */
  lemma SortedNodes(ns: seq<Node>, cs: seq<int>, m: map<Node, int>, rs: seq<Node>, ts: seq<int>, r: set<object>)
    requires |ns| == |cs| && Distinct(ns) && Snapshot(ns, m)
    requires forall i :: 0 <= i < |ns| ==> ns[i] in r && ns[i] in m && m[ns[i]] == cs[i]
    requires rs == MergeSort(ns, KeyOf(m)) && ts == MergeSort(cs, Id)
    ensures |rs| == |ts| && Sorted(ts) && Distinct(rs) && Elements(rs) == Elements(ns)
    ensures forall i :: 0 <= i < |rs| ==> rs[i] in r && rs[i].data == ts[i]
  {
    PermutedNodes(ns, rs, r);
    SubSnapshot(ns, rs, m);
    SortedKeys(ns, cs, m);
    SnapshotData(rs, m, ts);
  }

  class List {
    var head: Node?
    var tail: Node?
    var size: nat
    var isSorted: bool

    ghost var nodes: seq<Node>
    ghost var Contents: seq<int>
    ghost var Repr: set<object>

    /** The link structure: head to tail through `next`, tail to head through `prev`. */
    ghost predicate Linked()
      reads this`head, this`tail, this`size, this`nodes, this`Contents, this`Repr, nodes
    {
      && this in Repr
      && (forall i :: 0 <= i < |nodes| ==> nodes[i] in Repr)
      && size == |nodes|
      && (forall i, j :: 0 <= i < j < |nodes| ==> nodes[i] != nodes[j])
      && (if nodes == [] then head == null && tail == null
          else head == nodes[0] && tail == nodes[|nodes| - 1] && head.prev == null && tail.next == null)
      && |Contents| == |nodes|
      && (forall i :: 0 <= i < |nodes| ==> nodes[i].data == Contents[i])
      && (forall i {:trigger nodes[i].next} :: 0 <= i < |nodes| - 1 ==> nodes[i].next == nodes[i + 1])
      && (forall i {:trigger nodes[i].prev} :: 0 < i < |nodes| ==> nodes[i].prev == nodes[i - 1])
    }

    /** The class invariant: consistent links, and the flag set only when the values are in order. */
    ghost predicate Valid()
      reads this, nodes
    {
      Linked() && (isSorted ==> Sorted(Contents))
    }

    /** An empty list, flagged sorted (List.h:382). */
    constructor ()
      ensures Valid() && fresh(Repr)
      ensures Contents == [] && isSorted
    {
      head, tail, size, isSorted := null, null, 0, true;
      nodes, Contents := [], [];
      Repr := {this};
    }

    /** A list of the values of `init` in order, built by appending each (List.h:401-408). */
    constructor FromSeq(init: seq<int>)
      ensures Valid() && fresh(Repr)
      ensures Contents == init && isSorted == Sorted(init)
    {
      head, tail, size, isSorted := null, null, 0, true;
      nodes, Contents := [], [];
      Repr := {this};
      new;
      var i := 0;
      while i < |init|
        invariant i <= |init| && Valid() && fresh(Repr)
        invariant Contents == init[..i] && isSorted == Sorted(init[..i])
      {
        SortedAppend(init[..i], init[i]);
        assert init[..i + 1] == init[..i] + [init[i]];
        PushBack(init[i]);
        i := i + 1;
      }
      assert init[..i] == init;
    }

    /** A list of `count` copies of `value`, built by appending; it stays flagged sorted (List.h:411-418). */
    constructor Filled(count: nat, value: int)
      ensures Valid() && fresh(Repr) && isSorted
      ensures |Contents| == count && forall i :: 0 <= i < count ==> Contents[i] == value
    {
      head, tail, size, isSorted := null, null, 0, true;
      nodes, Contents := [], [];
      Repr := {this};
      new;
      var i := 0;
      while i < count
        invariant i <= count && Valid() && fresh(Repr) && isSorted
        invariant |Contents| == i && forall t :: 0 <= t < i ==> Contents[t] == value
      {
        PushBack(value);
        i := i + 1;
      }
    }

    /** Appends each of `other`'s values in turn to this empty list (List.h:431-435). */
    method AppendCopies(other: List)
      requires Valid() && other.Valid() && Repr !! other.Repr && Contents == []
      modifies Repr
      ensures Valid() && fresh(Repr - old(Repr)) && Repr !! other.Repr
      ensures Contents == other.Contents
    {
      var current := other.head;
      ghost var i := 0;
      while current != null
        invariant Valid() && Repr !! other.Repr && fresh(Repr - old(Repr))
        invariant i <= |other.nodes| && current == if i < |other.nodes| then other.nodes[i] else null
        invariant Contents == other.Contents[..i]
        decreases |other.nodes| - i
      {
        assert other.Contents[..i + 1] == other.Contents[..i] + [current.data];
        PushBack(current.data);
        current := current.next;
        i := i + 1;
      }
    }

    /** Copy assignment: unless `other` is this list, clear, append each of `other`'s values, then take its flag (List.h:427-438). */
    method Assign(other: List)
      requires Valid() && other.Valid() && (other == this || Repr !! other.Repr)
      modifies Repr
      ensures Valid() && fresh(Repr - old(Repr))
      ensures Contents == old(other.Contents) && isSorted == old(other.isSorted)
      ensures other != this ==> other.Valid() && Repr !! other.Repr
    {
      if other != this {
        Clear();
        AppendCopies(other);
        SetFlag(other.isSorted);
      }
    }

    /** Copy construction: an empty list given `other`'s flag, then copy-assigned from it (List.h:385-389). */
    constructor Copy(other: List)
      requires other.Valid()
      ensures Valid() && fresh(Repr)
      ensures Contents == other.Contents && isSorted == other.isSorted
    {
      head, tail, size, isSorted := null, null, 0, other.isSorted;
      nodes, Contents := [], [];
      Repr := {this};
      new;
      Assign(other);
    }

    /** Move assignment: unless `other` is this list, clear, take over `other`'s nodes and flag, and leave `other` empty and flagged sorted (List.h:441-456). */
    method MoveAssign(other: List)
      requires Valid() && other.Valid() && (other == this || Repr !! other.Repr)
      modifies Repr, other
      ensures Valid() && other.Valid()
      ensures other != this ==> nodes == old(other.nodes) && Contents == old(other.Contents) && isSorted == old(other.isSorted)
      ensures other != this ==> other.Contents == [] && other.isSorted && Repr !! other.Repr
      ensures other == this ==> Contents == old(Contents) && isSorted == old(isSorted)
      ensures Repr <= old(Repr) + old(other.Repr)
    {
      if other != this {
        Clear();
        Take(other.head, other.tail, other.size, other.isSorted, other.nodes, other.Contents, Repr + (other.Repr - {other}));
        other.Take(null, null, 0, true, [], [], {other});
      }
    }

    /** Move construction: take over `other`'s nodes and flag, leaving it empty and flagged sorted (List.h:391-399). */
    constructor Move(other: List)
      requires other.Valid()
      modifies other
      ensures Valid() && other.Valid() && Repr !! other.Repr
      ensures nodes == old(other.nodes) && Contents == old(other.Contents) && isSorted == old(other.isSorted)
      ensures other.Contents == [] && other.isSorted
    {
      head, tail, size, isSorted := null, null, 0, true;
      nodes, Contents := [], [];
      Repr := {this};
      new;
      Take(other.head, other.tail, other.size, other.isSorted, other.nodes, other.Contents, other.Repr - {other} + {this});
      other.Take(null, null, 0, true, [], [], {other});
    }

    /** Sets the flag to `b`, which may be true only when the values are in order. */
    method SetFlag(b: bool)
      requires Linked() && (b ==> Sorted(Contents))
      modifies this`isSorted
      ensures Valid() && isSorted == b
    {
      isSorted := b;
    }

    // Relinking steps. Each changes the chain at one place and leaves the flag alone.

    /** Makes the detached node `n` the only node of an empty list. */
    method LinkOnly(n: Node)
      requires Linked() && size == 0 && n !in Repr && n.next == null && n.prev == null
      modifies this
      ensures Linked() && isSorted == old(isSorted)
      ensures nodes == [n] && Contents == [n.data] && Repr == old(Repr) + {n}
    {
      head, tail, size, nodes, Contents, Repr := n, n, 1, [n], [n.data], Repr + {n};
    }

    /** Links the detached node `n` in front of the head. */
    method LinkFront(n: Node)
      requires Linked() && size > 0 && n !in Repr && n.next == null && n.prev == null
      modifies this, head`prev, n`next
      ensures Linked() && isSorted == old(isSorted)
      ensures nodes == [n] + old(nodes) && Contents == [n.data] + old(Contents) && Repr == old(Repr) + {n}
    {
      var h := head;
      n.next := h;
      h.prev := n;
      head, size, nodes, Contents, Repr := n, size + 1, [n] + nodes, [n.data] + Contents, Repr + {n};
    }

    /** Links the detached node `n` behind the tail. */
    method LinkBack(n: Node)
      requires Linked() && size > 0 && n !in Repr && n.next == null && n.prev == null
      modifies this, tail`next, n`prev
      ensures Linked() && isSorted == old(isSorted)
      ensures nodes == old(nodes) + [n] && Contents == old(Contents) + [n.data] && Repr == old(Repr) + {n}
    {
      var t := tail;
      t.next := n;
      n.prev := t;
      tail, size, nodes, Contents, Repr := n, size + 1, nodes + [n], Contents + [n.data], Repr + {n};
    }

    /** Links `n`, already pointing at `p` and at `p`'s predecessor, just before `p`, the node at the inner position `k`. */
    method LinkBefore(p: Node, ghost k: nat, n: Node)
      requires Linked() && 0 < k < |nodes| && nodes[k] == p
      requires n !in Repr && n.next == p && n.prev == p.prev
      modifies this, p`prev, p.prev`next
      ensures Linked() && isSorted == old(isSorted)
      ensures nodes == old(nodes)[..k] + [n] + old(nodes)[k..]
      ensures Contents == old(Contents)[..k] + [n.data] + old(Contents)[k..]
      ensures Repr == old(Repr) + {n}
    {
      ghost var on := nodes;
      ghost var ns, cs := nodes[..k] + [n] + nodes[k..], Contents[..k] + [n.data] + Contents[k..];
      var q := p.prev;
      assert q == on[k - 1] && forall i :: 0 <= i < |ns| ==> ns[i] == if i < k then on[i] else if i == k then n else on[i - 1];
      q.next := n;
      p.prev := n;
      Install(head, tail, size + 1, ns, cs, Repr + {n});
    }

    /** Records the chain `ns` from `h` to `t`, holding `cs`, with footprint `r`, leaving the flag alone. */
    method Install(h: Node?, t: Node?, n: nat, ghost ns: seq<Node>, ghost cs: seq<int>, ghost r: set<object>)
      requires this in r && n == |ns| && (forall i :: 0 <= i < |ns| ==> ns[i] in r)
      requires forall i, j :: 0 <= i < j < |ns| ==> ns[i] != ns[j]
      requires if ns == [] then h == null && t == null else h == ns[0] && t == ns[|ns| - 1] && h.prev == null && t.next == null
      requires |cs| == |ns| && forall i :: 0 <= i < |ns| ==> ns[i].data == cs[i]
      requires forall i {:trigger ns[i].next} :: 0 <= i < |ns| - 1 ==> ns[i].next == ns[i + 1]
      requires forall i {:trigger ns[i].prev} :: 0 < i < |ns| ==> ns[i].prev == ns[i - 1]
      modifies this`head, this`tail, this`size, this`nodes, this`Contents, this`Repr
      ensures Linked() && head == h && tail == t && nodes == ns && Contents == cs && Repr == r
    {
      head, tail, size, nodes, Contents, Repr := h, t, n, ns, cs, r;
    }

    /** Detaches the only node. */
    method UnlinkOnly()
      requires Linked() && size == 1
      modifies this
      ensures Linked() && isSorted == old(isSorted)
      ensures nodes == [] && Contents == [] && Repr == old(Repr) - {old(head)}
    {
      Repr := Repr - {head};
      head, tail, size, nodes, Contents := null, null, 0, [], [];
    }

    /** Detaches the head of a list of two or more nodes. */
    method UnlinkFront()
      requires Linked() && size > 1
      modifies this, head.next`prev
      ensures Linked() && isSorted == old(isSorted)
      ensures nodes == old(nodes)[1..] && Contents == old(Contents)[1..] && Repr == old(Repr) - {old(head)}
    {
      var h := head.next;
      h.prev := null;
      head, size, nodes, Contents, Repr := h, size - 1, nodes[1..], Contents[1..], Repr - {head};
    }

    /** Detaches the tail of a list of two or more nodes. */
    method UnlinkBack()
      requires Linked() && size > 1
      modifies this, tail.prev`next
      ensures Linked() && isSorted == old(isSorted)
      ensures nodes == old(nodes)[..|old(nodes)| - 1] && Contents == old(Contents)[..|old(Contents)| - 1]
      ensures Repr == old(Repr) - {old(tail)}
    {
      var t := tail.prev;
      t.next := null;
      var last := |nodes| - 1;
      tail, size, nodes, Contents, Repr := t, size - 1, nodes[..last], Contents[..last], Repr - {tail};
    }

    /** Detaches `p`, the node at the inner position `k`. */
    method UnlinkInner(p: Node, ghost k: nat)
      requires Linked() && 0 < k < |nodes| - 1 && nodes[k] == p
      modifies this, p.prev`next, p.next`prev
      ensures Linked() && isSorted == old(isSorted)
      ensures nodes == old(nodes)[..k] + old(nodes)[k + 1..]
      ensures Contents == old(Contents)[..k] + old(Contents)[k + 1..]
      ensures Repr == old(Repr) - {p}
    {
      var q, r := p.prev, p.next;
      q.next := r;
      r.prev := q;
      size, nodes, Contents, Repr := size - 1, nodes[..k] + nodes[k + 1..], Contents[..k] + Contents[k + 1..], Repr - {p};
    }

    /** Stores `v` in `p`, the node at position `k`. */
    method SetData(p: Node, ghost k: nat, v: int)
      requires Linked() && k < |nodes| && nodes[k] == p
      modifies this`Contents, p`data
      ensures Linked() && isSorted == old(isSorted) && nodes == old(nodes) && Repr == old(Repr)
      ensures Contents == old(Contents)[k := v]
    {
      p.data := v;
      Contents := Contents[k := v];
    }

    /** Detaches `p`, the node at position `k`, whichever place it occupies (List.h:896-908). */
    method Unlink(p: Node, ghost k: nat)
      requires Linked() && k < |nodes| && nodes[k] == p
      modifies Repr
      ensures Linked() && isSorted == old(isSorted)
      ensures nodes == old(nodes)[..k] + old(nodes)[k + 1..]
      ensures Contents == old(Contents)[..k] + old(Contents)[k + 1..]
      ensures Repr == old(Repr) - {p}
    {
      if p == head && p == tail {
        assert k == 0 && old(nodes)[1..] == [] && old(Contents)[1..] == [];
        UnlinkOnly();
      } else if p == head {
        assert k == 0 && old(nodes)[..0] == [] && old(Contents)[..0] == [];
        UnlinkFront();
      } else if p == tail {
        assert k == |nodes| - 1 && old(nodes)[k + 1..] == [] && old(Contents)[k + 1..] == [];
        UnlinkBack();
      } else {
        UnlinkInner(p, k);
      }
    }

    /** A new node holding `value`, linked just before `p`, the node at the inner position `k` (List.h:571-576). */
    method SpliceBefore(p: Node, ghost k: nat, value: int) returns (n: Node)
      requires Linked() && 0 < k < |nodes| && nodes[k] == p
      modifies Repr
      ensures Linked() && isSorted == old(isSorted) && fresh(n)
      ensures nodes == old(nodes)[..k] + [n] + old(nodes)[k..]
      ensures Contents == old(Contents)[..k] + [value] + old(Contents)[k..]
      ensures Repr == old(Repr) + {n}
    {
      n := new Node(value);
      n.next, n.prev := p, p.prev;
      LinkBefore(p, k, n);
    }

    /** Insert `value` at the front, clearing the flag only if it exceeds the old head (List.h:482-498). */
    method PushFront(value: int)
      requires Valid()
      modifies Repr
      ensures Valid() && fresh(Repr - old(Repr))
      ensures Contents == [value] + old(Contents)
      ensures |nodes| == |old(nodes)| + 1 && nodes[1..] == old(nodes) && fresh(nodes[0])
      ensures isSorted == (old(isSorted) && (old(Contents) == [] || value <= old(Contents)[0]))
    {
      SortedPrepend(Contents, value);
      var n := new Node(value);
      if size == 0 {
        LinkOnly(n);
      } else {
        if isSorted && size > 0 && value > head.data {
          isSorted := false;
        }
        LinkFront(n);
      }
    }

    /** Append `value`, clearing the flag only if it is below the old tail (List.h:521-537). */
    method PushBack(value: int)
      requires Valid()
      modifies Repr
      ensures Valid() && fresh(Repr - old(Repr))
      ensures Contents == old(Contents) + [value]
      ensures |nodes| == |old(nodes)| + 1 && nodes[..|old(nodes)|] == old(nodes) && fresh(nodes[|old(nodes)|])
      ensures isSorted == (old(isSorted) && (old(Contents) == [] || old(Contents)[|old(Contents)| - 1] <= value))
    {
      SortedAppend(Contents, value);
      var n := new Node(value);
      if size == 0 {
        LinkOnly(n);
      } else {
        if isSorted && size > 0 && value < tail.data {
          isSorted := false;
        }
        LinkBack(n);
      }
    }

    /** `PushBack` on a list whose flag tells exactly whether it is sorted keeps the flag exact. */
    method PushBackExact(value: int)
      requires Valid() && isSorted == Sorted(Contents)
      modifies Repr
      ensures Valid() && fresh(Repr - old(Repr))
      ensures Contents == old(Contents) + [value] && isSorted == Sorted(Contents)
    {
      SortedAppend(Contents, value);
      PushBack(value);
    }

    /** The node at `index`, walking from the nearer end; OutOfRange past the end (List.h:459-478). */
    method GetNodeAt(index: nat) returns (r: Result<Node>)
      requires Valid()
      ensures index < |Contents| ==> r == Ok(nodes[index])
      ensures index >= |Contents| ==> r == Err(OutOfRange)
    {
      if index >= size {
        return Err(OutOfRange);
      }
      var current: Node;
      if index < size / 2 {
        current := head;
        var i := 0;
        while i < index
          invariant 0 <= i <= index && current == nodes[i]
        {
          current := current.next;
          i := i + 1;
        }
      } else {
        current := tail;
        var i := size - 1;
        while i > index
          invariant index <= i < size && current == nodes[i]
        {
          current := current.prev;
          i := i - 1;
        }
      }
      return Ok(current);
    }

    /** Insert `value` before position `index`: the ends go through the pushes, inner places clear the flag (List.h:560-581). */
    method Insert(index: nat, value: int) returns (r: Result<()>)
      requires Valid()
      modifies Repr
      ensures Valid() && fresh(Repr - old(Repr))
      ensures index > |old(Contents)| ==>
        r == Err(OutOfRange) && Contents == old(Contents) && isSorted == old(isSorted) && nodes == old(nodes) && Repr == old(Repr)
      ensures index <= |old(Contents)| ==> r == Ok(()) && Contents == old(Contents)[..index] + [value] + old(Contents)[index..]
      ensures index == 0 ==> isSorted == (old(isSorted) && (old(Contents) == [] || value <= old(Contents)[0]))
      ensures 0 < index == |old(Contents)| ==> isSorted == (old(isSorted) && old(Contents)[index - 1] <= value)
      ensures 0 < index < |old(Contents)| ==> !isSorted
    {
      if index > size {
        return Err(OutOfRange);
      }
      if index == 0 {
        PushFront(value);
      } else if index == size {
        PushBack(value);
        assert old(Contents)[index..] == [];
      } else {
        var got := GetNodeAt(index);
        var _ := SpliceBefore(got.value, index, value);
        SetFlag(false);
      }
      return Ok(());
    }

    /** Insert `value` before the cursor `pos` (null: the end) and return the new node (List.h:609-632). */
    method InsertAt(pos: Node?, value: int) returns (it: Node)
      requires Valid() && (pos == null || pos in nodes)
      modifies Repr
      ensures Valid() && fresh(Repr - old(Repr)) && fresh(it)
      ensures var k := CursorIndex(old(nodes), pos);
        && nodes == old(nodes)[..k] + [it] + old(nodes)[k..]
        && Contents == old(Contents)[..k] + [value] + old(Contents)[k..]
      ensures isSorted ==
        if pos == null then old(isSorted) && (old(Contents) == [] || old(Contents)[|old(Contents)| - 1] <= value)
        else if pos == old(head) then old(isSorted) && value <= old(Contents)[0]
        else false
    {
      if pos == null {
        PushBack(value);
        assert old(nodes)[|old(nodes)|..] == [] && old(Contents)[|old(Contents)|..] == [];
        return tail;
      }
      if pos == head {
        PushFront(value);
        return head;
      }
      ghost var k := Position(nodes, pos);
      it := SpliceBefore(pos, k, value);
      SetFlag(false);
    }

    /** Link a node holding `value` before the cursor `pos` without the pushes, always clearing the flag (List.h:703-731). */
    method Emplace(pos: Node?, value: int) returns (it: Node)
      requires Valid() && (pos == null || pos in nodes)
      modifies Repr
      ensures Valid() && fresh(Repr - old(Repr)) && fresh(it) && !isSorted
      ensures var k := CursorIndex(old(nodes), pos);
        && nodes == old(nodes)[..k] + [it] + old(nodes)[k..]
        && Contents == old(Contents)[..k] + [value] + old(Contents)[k..]
    {
      ghost var on, oc, r := nodes, Contents, Repr;
      ghost var k := CursorIndex(on, pos);
      it := new Node(value);
      if pos == null {
        assert on[..k] == on && on[k..] == [] && oc[..k] == oc && oc[k..] == [];
        if size == 0 {
          LinkOnly(it);
        } else {
          LinkBack(it);
        }
      } else if pos == head {
        assert k == 0 && on[..0] == [] && on[0..] == on && oc[..0] == [] && oc[0..] == oc;
        LinkFront(it);
      } else {
        it.next, it.prev := pos, pos.prev;
        LinkBefore(pos, k, it);
      }
      assert nodes == on[..k] + [it] + on[k..] && Contents == oc[..k] + [value] + oc[k..] && Repr == r + {it};
      SetFlag(false);
    }

    /** Remove the first element; Underflow on an empty list (List.h:797-813). */
    method PopFront() returns (r: Result<()>)
      requires Valid()
      modifies Repr
      ensures Valid() && isSorted == old(isSorted) && Repr <= old(Repr)
      ensures old(Contents) == [] ==> r == Err(Underflow) && Contents == old(Contents) && nodes == old(nodes) && Repr == old(Repr)
      ensures old(Contents) != [] ==> r == Ok(()) && Contents == old(Contents)[1..] && nodes == old(nodes)[1..]
    {
      if size == 0 {
        return Err(Underflow);
      }
      SortedRemove(Contents, 0);
      assert Contents[..0] + Contents[1..] == Contents[1..];
      if size == 1 {
        UnlinkOnly();
      } else {
        UnlinkFront();
      }
      return Ok(());
    }

    /** Remove and return the first element; Underflow on an empty list (List.h:816-824). */
    method PopFrontAndReturn() returns (r: Result<int>)
      requires Valid()
      modifies Repr
      ensures Valid() && isSorted == old(isSorted) && Repr <= old(Repr)
      ensures old(Contents) == [] ==> r == Err(Underflow) && Contents == old(Contents) && nodes == old(nodes) && Repr == old(Repr)
      ensures old(Contents) != [] ==> r == Ok(old(Contents)[0]) && Contents == old(Contents)[1..]
    {
      if size == 0 {
        return Err(Underflow);
      }
      var value := head.data;
      var _ := PopFront();
      return Ok(value);
    }

    /** Remove the last element; Underflow on an empty list (List.h:828-844). */
    method PopBack() returns (r: Result<()>)
      requires Valid()
      modifies Repr
      ensures Valid() && isSorted == old(isSorted) && Repr <= old(Repr)
      ensures old(Contents) == [] ==> r == Err(Underflow) && Contents == old(Contents) && nodes == old(nodes) && Repr == old(Repr)
      ensures old(Contents) != [] ==> r == Ok(()) && Contents == old(Contents)[..|old(Contents)| - 1]
      ensures old(Contents) != [] ==> nodes == old(nodes)[..|old(nodes)| - 1]
    {
      if size == 0 {
        return Err(Underflow);
      }
      var last := size - 1;
      SortedRemove(Contents, last);
      assert Contents[..last] + Contents[last + 1..] == Contents[..last];
      if size == 1 {
        UnlinkOnly();
      } else {
        UnlinkBack();
      }
      return Ok(());
    }

    /** Remove and return the last element; Underflow on an empty list (List.h:847-855). */
    method PopBackAndReturn() returns (r: Result<int>)
      requires Valid()
      modifies Repr
      ensures Valid() && isSorted == old(isSorted) && Repr <= old(Repr)
      ensures old(Contents) == [] ==> r == Err(Underflow) && Contents == old(Contents) && nodes == old(nodes) && Repr == old(Repr)
      ensures old(Contents) != [] ==> r == Ok(old(Contents)[|old(Contents)| - 1]) && Contents == old(Contents)[..|old(Contents)| - 1]
    {
      if size == 0 {
        return Err(Underflow);
      }
      var value := tail.data;
      var _ := PopBack();
      return Ok(value);
    }

    /** Remove the element at `index`; OutOfRange past the end (List.h:859-875). */
    method RemoveAt(index: nat) returns (r: Result<()>)
      requires Valid()
      modifies Repr
      ensures Valid() && isSorted == old(isSorted) && Repr <= old(Repr)
      ensures index >= |old(Contents)| ==> r == Err(OutOfRange) && Contents == old(Contents) && nodes == old(nodes) && Repr == old(Repr)
      ensures index < |old(Contents)| ==> r == Ok(()) && Contents == old(Contents)[..index] + old(Contents)[index + 1..]
    {
      if index >= size {
        return Err(OutOfRange);
      }
      if index == 0 {
        var _ := PopFront();
        assert old(Contents)[..0] + old(Contents)[1..] == old(Contents)[1..];
      } else if index == size - 1 {
        var _ := PopBack();
        assert old(Contents)[index + 1..] == [];
      } else {
        var got := GetNodeAt(index);
        SortedRemove(Contents, index);
        UnlinkInner(got.value, index);
      }
      return Ok(());
    }

    /** Remove and return the element at `index`; OutOfRange past the end (List.h:878-886). */
    method RemoveAtAndReturn(index: nat) returns (r: Result<int>)
      requires Valid()
      modifies Repr
      ensures Valid() && isSorted == old(isSorted) && Repr <= old(Repr)
      ensures index >= |old(Contents)| ==> r == Err(OutOfRange) && Contents == old(Contents) && nodes == old(nodes) && Repr == old(Repr)
      ensures index < |old(Contents)| ==> r == Ok(old(Contents)[index]) && Contents == old(Contents)[..index] + old(Contents)[index + 1..]
    {
      if index >= size {
        return Err(OutOfRange);
      }
      var value := At(index);
      var _ := RemoveAt(index);
      return Ok(value.value);
    }

    /** Remove the node at the cursor `pos` and return its successor; a null cursor changes nothing (List.h:890-915). */
    method Erase(pos: Node?) returns (next: Node?)
      requires Valid() && (pos == null || pos in nodes)
      modifies Repr
      ensures Valid() && isSorted == old(isSorted) && Repr <= old(Repr)
      ensures pos == null ==> next == null && Contents == old(Contents) && nodes == old(nodes)
      ensures pos != null ==> var k := Position(old(nodes), pos);
        && next == (if k + 1 < |old(nodes)| then old(nodes)[k + 1] else null)
        && nodes == old(nodes)[..k] + old(nodes)[k + 1..]
        && Contents == old(Contents)[..k] + old(Contents)[k + 1..]
    {
      if pos == null {
        return null;
      }
      ghost var k := Position(nodes, pos);
      next := pos.next;
      SortedRemove(Contents, k);
      Unlink(pos, k);
    }

    /** The element at `index`; OutOfRange past the end (List.h:1042-1059). */
    method At(index: nat) returns (r: Result<int>)
      requires Valid()
      ensures index < |Contents| ==> r == Ok(Contents[index])
      ensures index >= |Contents| ==> r == Err(OutOfRange)
    {
      var got := GetNodeAt(index);
      if got.Err? {
        return Err(got.error);
      }
      return Ok(got.value.data);
    }

    /** Remove the nodes from the cursor `first` up to, not including, the cursor `last` (List.h:918-923). */
    method EraseRange(first: Node?, last: Node?) returns (r: Node?)
      requires Valid() && (first == null || first in nodes) && (last == null || last in nodes)
      requires CursorIndex(nodes, first) <= CursorIndex(nodes, last)
      modifies Repr
      ensures Valid() && isSorted == old(isSorted) && Repr <= old(Repr) && r == last
      ensures Contents == old(Contents)[..CursorIndex(old(nodes), first)] + old(Contents)[CursorIndex(old(nodes), last)..]
    {
      ghost var on, oc := nodes, Contents;
      ghost var a, b := CursorIndex(on, first), CursorIndex(on, last);
      assert Distinct(on);
      ghost var j := a;
      var cur := first;
      while cur != last
        invariant Valid() && isSorted == old(isSorted) && Repr <= old(Repr)
        invariant a <= j <= b <= |on| == |oc| && a <= |nodes|
        invariant nodes[a..] == on[j..] && Contents == oc[..a] + oc[j..]
        invariant cur == if a < |nodes| then nodes[a] else null
        invariant cur == if j < |on| then on[j] else null
        decreases b - j
      {
        assert j < b;
        cur := EraseStep(cur, a, j, on, oc);
        j := j + 1;
      }
      SameCursor(on, j, b);
      return last;
    }

    /** One pass of the loop of List.h:919-921, erasing one node as List.h:890-915 does: unlinks `cur`, the node at `a` that held the `j`-th of the values `oc`, returning its successor. */
    method EraseStep(cur: Node, ghost a: nat, ghost j: nat, ghost on: seq<Node>, ghost oc: seq<int>) returns (next: Node?)
      requires Valid() && a <= j < |on| == |oc| && a < |nodes| && cur == nodes[a]
      requires nodes[a..] == on[j..] && Contents == oc[..a] + oc[j..]
      modifies Repr
      ensures Valid() && isSorted == old(isSorted) && Repr <= old(Repr)
      ensures a <= |nodes| && nodes[a..] == on[j + 1..] && Contents == oc[..a] + oc[j + 1..]
      ensures next == if a < |nodes| then nodes[a] else null
    {
      next := cur.next;
      SortedRemove(Contents, a);
      RemoveFromSuffix(nodes, on, a, j);
      Unlink(cur, a);
      RemoveAfterPrefix(oc, a, j + 1);
    }

    /** Remove the first node holding `value`; false when there is none (List.h:927-950). */
    method RemoveFirst(value: int) returns (found: bool)
      requires Valid()
      modifies Repr
      ensures Valid() && isSorted == old(isSorted) && Repr <= old(Repr)
      ensures found == (value in old(Contents))
      ensures !found ==> Contents == old(Contents) && nodes == old(nodes) && Repr == old(Repr)
      ensures found ==> var k := IndexOf(old(Contents), value);
        Contents == old(Contents)[..k] + old(Contents)[k + 1..]
    {
      var current := head;
      ghost var i := 0;
      while current != null
        invariant i <= |nodes| && current == if i < |nodes| then nodes[i] else null
        invariant forall t :: 0 <= t < i ==> Contents[t] != value
        decreases |nodes| - i
      {
        if current.data == value {
          assert IndexOf(Contents, value) == i;
          SortedRemove(Contents, i);
          Unlink(current, i);
          return true;
        }
        current := current.next;
        i := i + 1;
      }
      return false;
    }

    /** Remove the last node holding `value`; false when there is none (List.h:953-976). */
    method RemoveLast(value: int) returns (found: bool)
      requires Valid()
      modifies Repr
      ensures Valid() && isSorted == old(isSorted) && Repr <= old(Repr)
      ensures found == (value in old(Contents))
      ensures !found ==> Contents == old(Contents) && nodes == old(nodes) && Repr == old(Repr)
      ensures found ==> var k := LastIndexOf(old(Contents), value);
        0 <= k && Contents == old(Contents)[..k] + old(Contents)[k + 1..]
    {
      var current := tail;
      ghost var i: int := |nodes| - 1;
      while current != null
        invariant -1 <= i < |nodes| && current == if i >= 0 then nodes[i] else null
        invariant forall t :: i < t < |nodes| ==> Contents[t] != value
        decreases i
      {
        if current.data == value {
          assert LastIndexOf(Contents, value) == i;
          SortedRemove(Contents, i);
          Unlink(current, i);
          return true;
        }
        current := current.prev;
        i := i - 1;
      }
      return false;
    }

    /** One step of the removal scan over the node `p` at position `k`: unlink it when it satisfies `pred`, and return the node to visit next. */
    method SiftNode(p: Node, ghost k: nat, pred: int -> bool) returns (next: Node?, dropped: bool)
      requires Valid() && k < |nodes| && nodes[k] == p
      modifies Repr
      ensures Valid() && isSorted == old(isSorted) && Repr <= old(Repr)
      ensures dropped == pred(old(Contents)[k])
      ensures dropped ==> Contents == old(Contents)[..k] + old(Contents)[k + 1..] && next == if k < |nodes| then nodes[k] else null
      ensures !dropped ==> Contents == old(Contents) && nodes == old(nodes) && next == if k + 1 < |nodes| then nodes[k + 1] else null
      ensures var j := if dropped then k else k + 1;
        j <= |Contents| && Contents[..j] + Filter(Contents[j..], Negate(pred)) == old(Contents)[..k] + Filter(old(Contents)[k..], Negate(pred))
    {
      FilterScan(Contents, k, Negate(pred));
      next := p.next;
      dropped := pred(p.data);
      if dropped {
        SortedRemove(Contents, k);
        Unlink(p, k);
      }
    }

    /** Remove every node whose value satisfies `pred` and return how many went (List.h:1011-1038). */
    method RemoveIf(pred: int -> bool) returns (removed: nat)
      requires Valid()
      modifies Repr
      ensures Valid() && isSorted == old(isSorted) && Repr <= old(Repr)
      ensures Contents == Filter(old(Contents), Negate(pred))
      ensures removed == |old(Contents)| - |Contents|
    {
      removed := 0;
      var current := head;
      ghost var a := 0;
      ghost var oc := Contents;
      assert Contents[..0] == [] && Contents[0..] == Contents;
      while current != null
        invariant Valid() && isSorted == old(isSorted) && Repr <= old(Repr)
        invariant a <= |nodes| && removed == |oc| - |Contents|
        invariant Filter(oc, Negate(pred)) == Contents[..a] + Filter(Contents[a..], Negate(pred))
        invariant current == if a < |nodes| then nodes[a] else null
        decreases |nodes| - a
      {
        var dropped;
        current, dropped := SiftNode(current, a, pred);
        if dropped {
          removed := removed + 1;
        } else {
          a := a + 1;
        }
      }
      assert Contents[..a] == Contents && Contents[a..] == [];
    }

    /** Remove every node holding `value` and return how many went (List.h:979-1006). */
    method RemoveAll(value: int) returns (removed: nat)
      requires Valid()
      modifies Repr
      ensures Valid() && isSorted == old(isSorted) && Repr <= old(Repr)
      ensures Contents == Filter(old(Contents), Negate(EqualTo(value)))
      ensures removed == multiset(old(Contents))[value] && value !in Contents
      ensures multiset(Contents) == multiset(old(Contents))[value := 0]
    {
      removed := RemoveIf(EqualTo(value));
      FilterOutCount(old(Contents), value);
    }

    /** The first element; Underflow on an empty list (List.h:1061-1074). */
    method Front() returns (r: Result<int>)
      requires Valid()
      ensures Contents == [] ==> r == Err(Underflow)
      ensures Contents != [] ==> r == Ok(Contents[0])
    {
      if size == 0 {
        return Err(Underflow);
      }
      return Ok(head.data);
    }

    /** The last element; Underflow on an empty list (List.h:1076-1090). */
    method Back() returns (r: Result<int>)
      requires Valid()
      ensures Contents == [] ==> r == Err(Underflow)
      ensures Contents != [] ==> r == Ok(Contents[|Contents| - 1])
    {
      if size == 0 {
        return Err(Underflow);
      }
      return Ok(tail.data);
    }

    /** The number of elements (List.h:1094-1097). */
    function Size(): (n: nat)
      requires Valid()
      reads this, nodes
      ensures n == |Contents|
    {
      size
    }

    /** Whether the list holds no element (List.h:1099-1102). */
    function Empty(): (b: bool)
      requires Valid()
      reads this, nodes
      ensures b <==> Contents == []
    {
      size == 0
    }

    /** The flag; when set, the values are in order (List.h:1104-1107). */
    function IsSortedFlag(): (b: bool)
      requires Valid()
      reads this, nodes
      ensures b ==> Sorted(Contents)
    {
      isSorted
    }

    /** Whether some node holds `value` (List.h:1111-1120). */
    method Contains(value: int) returns (found: bool)
      requires Valid()
      ensures found <==> value in Contents
    {
      var current := head;
      ghost var i := 0;
      while current != null
        invariant i <= |nodes| && current == if i < |nodes| then nodes[i] else null
        invariant value !in Contents[..i]
        decreases |nodes| - i
      {
        if current.data == value {
          return true;
        }
        assert Contents[..i + 1] == Contents[..i] + [Contents[i]];
        current := current.next;
        i := i + 1;
      }
      assert Contents[..i] == Contents;
      return false;
    }

    /** How many nodes hold `value` (List.h:1123-1133). */
    method Count(value: int) returns (n: nat)
      requires Valid()
      ensures n == multiset(Contents)[value]
    {
      n := 0;
      var current := head;
      ghost var i := 0;
      while current != null
        invariant i <= |nodes| && current == if i < |nodes| then nodes[i] else null
        invariant n == multiset(Contents[..i])[value]
        decreases |nodes| - i
      {
        assert Contents[..i + 1] == Contents[..i] + [Contents[i]];
        if current.data == value {
          n := n + 1;
        }
        current := current.next;
        i := i + 1;
      }
      assert Contents[..i] == Contents;
    }

    /** The index of the first node holding `value`, or -1 (List.h:1136-1147). */
    method FindFirst(value: int) returns (index: int)
      requires Valid()
      ensures index == -1 <==> value !in Contents
      ensures index != -1 ==> index == IndexOf(Contents, value)
    {
      var current := head;
      index := 0;
      while current != null
        invariant 0 <= index <= |nodes| && current == if index < |nodes| then nodes[index] else null
        invariant forall t :: 0 <= t < index ==> Contents[t] != value
        decreases |nodes| - index
      {
        if current.data == value {
          return index;
        }
        current := current.next;
        index := index + 1;
      }
      return -1;
    }

    /** The index of the last node holding `value`, or -1 (List.h:1150-1161). */
    method FindLast(value: int) returns (index: int)
      requires Valid()
      ensures index == -1 <==> value !in Contents
      ensures index == LastIndexOf(Contents, value)
    {
      var current := tail;
      index := size - 1;
      while current != null
        invariant -1 <= index < |nodes| && current == if index >= 0 then nodes[index] else null
        invariant forall t :: index < t < |nodes| ==> Contents[t] != value
        decreases index
      {
        if current.data == value {
          return index;
        }
        current := current.prev;
        index := index - 1;
      }
      return -1;
    }

    /** A cursor at the first node holding `value`, or the end (List.h:1164-1185). */
    method Find(value: int) returns (it: Node?)
      requires Valid()
      ensures it == null <==> value !in Contents
      ensures it != null ==> var k := IndexOf(Contents, value); k < |nodes| && it == nodes[k]
    {
      var current := head;
      ghost var i := 0;
      while current != null
        invariant i <= |nodes| && current == if i < |nodes| then nodes[i] else null
        invariant forall t :: 0 <= t < i ==> Contents[t] != value
        decreases |nodes| - i
      {
        if current.data == value {
          return current;
        }
        current := current.next;
        i := i + 1;
      }
      return null;
    }

    /**
     * Binary search through `At` over the sorted list: an index holding `value`,
     * or -1 when there is none; LogicError when the flag is clear (List.h:1219-1246).
     */
    method BinarySearchIndex(value: int) returns (r: Result<int>)
      requires Valid()
      ensures !isSorted ==> r == Err(LogicError)
      ensures isSorted ==> r.Ok? && (r.value == -1 <==> value !in Contents)
      ensures isSorted && r.Ok? && r.value != -1 ==> 0 <= r.value < |Contents| && Contents[r.value] == value
    {
      if !isSorted {
        return Err(LogicError);
      }
      if size == 0 {
        return Ok(-1);
      }
      var left: nat, right: nat := 0, size - 1;
      while left <= right
        invariant left <= right + 1 && right < |Contents|
        invariant forall t :: 0 <= t < left ==> Contents[t] < value
        invariant forall t :: right < t < |Contents| ==> value < Contents[t]
        decreases right + 1 - left
      {
        var mid := left + (right - left) / 2;
        var got := At(mid);
        var midValue := got.value;
        if midValue == value {
          return Ok(mid);
        } else if midValue < value {
          left := mid + 1;
        } else {
          if mid == 0 {
            break;
          }
          right := mid - 1;
        }
      }
      return Ok(-1);
    }

    /** Whether `value` occurs, by binary search; LogicError when the flag is clear (List.h:1189-1216). */
    method BinarySearch(value: int) returns (r: Result<bool>)
      requires Valid()
      ensures !isSorted ==> r == Err(LogicError)
      ensures isSorted ==> r == Ok(value in Contents)
    {
      var index := BinarySearchIndex(value);
      if index.Err? {
        return Err(index.error);
      }
      return Ok(index.value != -1);
    }

    /** A cursor at a node holding `value` found by binary search, or the end (List.h:1249-1264). */
    method BinaryFind(value: int) returns (r: Result<Node?>)
      requires Valid()
      ensures !isSorted ==> r == Err(LogicError)
      ensures isSorted ==> r.Ok? && (r.value == null <==> value !in Contents)
      ensures isSorted && r.Ok? && r.value != null ==> r.value in nodes && r.value.data == value
    {
      var index := BinarySearchIndex(value);
      if index.Err? {
        return Err(index.error);
      }
      if index.value == -1 {
        return Ok(null);
      }
      var got := GetNodeAt(index.value);
      return Ok(got.value);
    }

    // Merge sort on the bare `next` chain; `prev` links are stale until `Sort` rebuilds them.

    /** The chain from `head` lists `nodes`, all distinct. */
    lemma LinkedChain()
      requires Linked()
      ensures Chain(head, nodes) && Distinct(nodes)
    {
    }

    /** Merges the sorted chains from `left` and `right` by relinking, taking from `left` on ties (List.h:1348-1363). */
    method MergeNodes(left: Node?, ghost ls: seq<Node>, right: Node?, ghost rs: seq<Node>, ghost m: map<Node, int>)
      returns (r: Node?, ghost ms: seq<Node>)
      requires Chain(left, ls) && Chain(right, rs) && Distinct(ls) && Distinct(rs) && Apart(ls, rs)
      requires Snapshot(ls, m) && Snapshot(rs, m)
      modifies Elements(ls)`next, Elements(rs)`next
      ensures Chain(r, ms) && ms == Merge(ls, rs, KeyOf(m))
      decreases |ls| + |rs|
    {
      if left == null {
        return right, rs;
      }
      if right == null {
        return left, ls;
      }
      if left.data <= right.data {
        ChainTail(left, ls);
        DistinctTail(ls);
        var rest;
        ghost var restNs;
        rest, restNs := MergeNodes(left.next, ls[1..], right, rs, m);
        NotAmong(left, restNs, ls[1..] + rs);
        left.next := rest;
        ChainCons(left, rest, restNs);
        assert Merge(ls, rs, KeyOf(m)) == [ls[0]] + Merge(ls[1..], rs, KeyOf(m));
        r, ms := left, [ls[0]] + restNs;
      } else {
        ChainTail(right, rs);
        DistinctTail(rs);
        var rest;
        ghost var restNs;
        rest, restNs := MergeNodes(left, ls, right.next, rs[1..], m);
        NotAmong(right, restNs, ls + rs[1..]);
        right.next := rest;
        ChainCons(right, rest, restNs);
        assert Merge(ls, rs, KeyOf(m)) == [rs[0]] + Merge(ls, rs[1..], KeyOf(m));
        r, ms := right, [rs[0]] + restNs;
      }
    }

    /** Cuts the chain from `h` behind its middle node, found by advancing `fast` twice as far as `slow` (List.h:1325-1336). */
    method SplitMiddle(h: Node, ghost ns: seq<Node>) returns (slow: Node, ghost i: nat)
      requires Chain(h, ns) && Distinct(ns) && |ns| >= 2
      modifies {ns[|ns| / 2 - 1]}`next
      ensures i == |ns| / 2 && slow == ns[i]
      ensures Chain(h, ns[..i]) && Chain(slow, ns[i..])
    {
      var fast: Node?, prev: Node?;
      slow, fast, prev := h, h, null;
      i := 0;
      while fast != null && fast.next != null
        invariant 2 * i <= |ns| && i < |ns|
        invariant slow == ns[i] && fast == (if 2 * i < |ns| then ns[2 * i] else null)
        invariant prev == if i == 0 then null else ns[i - 1]
        decreases |ns| - 2 * i
      {
        prev := slow;
        slow := slow.next;
        fast := fast.next.next;
        i := i + 1;
      }
      assert i == |ns| / 2 && 0 < i;
      prev.next := null;
      ghost var front, back := ns[..i], ns[i..];
      forall t | 0 <= t < i ensures front[t].next == if t + 1 < i then front[t + 1] else null {
        assert ns[t] == front[t] && (t + 1 < i ==> ns[t + 1] == front[t + 1]);
      }
      forall t | 0 <= t < |back| ensures back[t].next == if t + 1 < |back| then back[t + 1] else null {
        assert ns[i + t] == back[t] && (t + 1 < |back| ==> ns[i + t + 1] == back[t + 1]);
      }
    }

    /** Sorts the chain from `h` by relinking: split in the middle, sort both halves, merge them (List.h:1320-1345). */
    method MergeSortNodes(h: Node?, ghost ns: seq<Node>, ghost m: map<Node, int>) returns (r: Node?, ghost rs: seq<Node>)
      requires Chain(h, ns) && Distinct(ns) && Snapshot(ns, m)
      modifies Elements(ns)`next
      ensures Chain(r, rs) && rs == MergeSort(ns, KeyOf(m))
      decreases |ns|
    {
      if h == null || h.next == null {
        return h, ns;
      }
      var slow;
      ghost var i;
      slow, i := SplitMiddle(h, ns);
      DistinctSplit(ns, i);
      ghost var front, back := ns[..i], ns[i..];
      assert ns == front + back;
      SnapshotWithin(ns, front, m);
      SnapshotWithin(ns, back, m);
      var left, right;
      ghost var lsorted, rsorted;
      left, lsorted := MergeSortNodes(h, front, m);
      PermutedWithin(lsorted, front);
      assert Apart(lsorted, back);
      right, rsorted := MergeSortNodes(slow, back, m);
      PermutedWithin(rsorted, back);
      assert Snapshot(front, m) && Snapshot(back, m);
      SnapshotWithin(front, lsorted, m);
      SnapshotWithin(back, rsorted, m);
      assert MergeSort(ns, KeyOf(m)) == Merge(lsorted, rsorted, KeyOf(m));
      r, rs := MergeNodes(left, lsorted, right, rsorted, m);
    }

    /** Records `ns`, relinked into a chain from `head` to `tail` with matching `prev` links, as the nodes holding `cs`; the flag must fit `cs`. */
    method Adopt(ghost ns: seq<Node>, ghost cs: seq<int>)
      requires this in Repr && size == |ns| && ns != [] && Distinct(ns) && |cs| == |ns|
      requires forall i :: 0 <= i < |ns| ==> ns[i] in Repr && ns[i].data == cs[i]
      requires Chain(head, ns) && tail == ns[|ns| - 1]
      requires forall t {:trigger ns[t].prev} :: 0 <= t < |ns| ==> ns[t].prev == if t == 0 then null else ns[t - 1]
      requires isSorted ==> Sorted(cs)
      modifies this`nodes, this`Contents
      ensures Valid() && nodes == ns && Contents == cs
    {
      nodes, Contents := ns, cs;
      assert nodes[0].prev == null && head == nodes[0];
      assert tail.next == null;
      assert forall i :: 0 <= i < |nodes| - 1 ==> nodes[i].next == nodes[i + 1];
      assert forall i :: 0 < i < |nodes| ==> nodes[i].prev == nodes[i - 1];
    }

    /** Makes the chain `ns` from `h`, holding the ordered values `cs`, the list: `head` is `h`, `tail` its last node, every `prev` the node before, and the flag is set (List.h:1276-1287). */
    method RebuildLinks(h: Node, ghost ns: seq<Node>, ghost cs: seq<int>)
      requires this in Repr && size == |ns| && Chain(h, ns) && Distinct(ns) && |cs| == |ns| && Sorted(cs)
      requires forall i :: 0 <= i < |ns| ==> ns[i] in Repr && ns[i].data == cs[i]
      modifies this`head, this`tail, this`isSorted, this`nodes, this`Contents, Elements(ns)`prev
      ensures Valid() && isSorted && nodes == ns && Contents == cs
    {
      head := h;
      tail := head;
      var current := head;
      current.prev := null;
      ghost var j := 0;
      while current.next != null
        invariant Chain(head, ns)
        invariant j < |ns| && current == ns[j] && tail == current
        invariant forall t {:trigger ns[t].prev} :: 0 <= t <= j ==> ns[t].prev == if t == 0 then null else ns[t - 1]
        modifies this`tail, Elements(ns)`prev
        decreases |ns| - j
      {
        assert current.next == ns[j + 1] && forall t :: 0 <= t <= j ==> ns[t] != ns[j + 1];
        current.next.prev := current;
        current := current.next;
        tail := current;
        j := j + 1;
      }
      isSorted := true;
      Adopt(ns, cs);
    }

    /** Merge-sorts the chain `ns` from `h`; the sorted chain holds `ts`, the merge-sorted values `cs`. */
    method SortChain(h: Node?, ghost ns: seq<Node>, ghost cs: seq<int>, ghost m: map<Node, int>, ghost ts: seq<int>, ghost r: set<object>)
      returns (s: Node?, ghost rs: seq<Node>)
      requires Chain(h, ns) && Distinct(ns) && Snapshot(ns, m) && |ns| == |cs|
      requires forall i :: 0 <= i < |ns| ==> ns[i] in r && ns[i] in m && m[ns[i]] == cs[i]
      requires ts == MergeSort(cs, Id)
      modifies Elements(ns)`next
      ensures Chain(s, rs) && Distinct(rs) && |rs| == |ts| && Sorted(ts) && Elements(rs) == Elements(ns)
      ensures rs == MergeSort(ns, KeyOf(m))
      ensures forall i :: 0 <= i < |rs| ==> rs[i] in r && rs[i].data == ts[i]
    {
      s, rs := MergeSortNodes(h, ns, m);
      SortedNodes(ns, cs, m, rs, ts, r);
    }

    /** Sorts the chain of `nodes` by relinking and rebuilds the list around it, holding `ts`. */
    method SortRelink(ghost cs: seq<int>, ghost m: map<Node, int>, ghost ts: seq<int>)
      requires this in Repr && size == |nodes| && nodes != [] && Elements(nodes) <= Repr
      requires Chain(head, nodes) && Distinct(nodes) && Snapshot(nodes, m) && |nodes| == |cs|
      requires forall i :: 0 <= i < |nodes| ==> nodes[i] in Repr && nodes[i] in m && m[nodes[i]] == cs[i]
      requires ts == MergeSort(cs, Id)
      modifies this`head, this`tail, this`isSorted, this`nodes, this`Contents, Elements(nodes)`next, Elements(nodes)`prev
      ensures Valid() && isSorted && Contents == ts
      ensures nodes == MergeSort(old(nodes), KeyOf(m))
    {
      var h;
      ghost var sorted;
      h, sorted := SortChain(head, nodes, cs, m, ts, Repr);
      RebuildLinks(h, sorted, ts);
    }

    /** Stable merge sort in place: the nodes are relinked in order of their values, `tail` and every `prev` link are rebuilt and the flag is set (List.h:1268-1288). */
    method Sort()
      requires Valid()
      modifies Repr
      ensures Valid() && isSorted && Repr == old(Repr)
      ensures Contents == MergeSort(old(Contents), Id)
    {
      if size <= 1 {
        SetFlag(true);
        return;
      }
      ghost var cs := Contents;
      ghost var m := SnapshotOf(nodes);
      assert forall i :: 0 <= i < |nodes| ==> nodes[i] in m && m[nodes[i]] == cs[i];
      LinkedChain();
      ElementsWithin(nodes, Repr);
      SortRelink(cs, m, MergeSort(cs, Id));
    }

    /** Sorts the list unless its flag is already set (List.h:736-738, List.h:1403-1404); either way the values end as their merge sort. */
    method EnsureSorted()
      requires Valid()
      modifies Repr
      ensures Valid() && isSorted && Repr == old(Repr)
      ensures Contents == MergeSort(old(Contents), Id)
    {
      if !isSorted {
        Sort();
      } else {
        MergeSortIsSort(Contents);
      }
    }

    /** Insert `value` before the first value not less than it, sorting first when the flag is clear; the list ends flagged sorted (List.h:735-763). */
    method InsertSorted(value: int)
      requires Valid()
      modifies Repr
      ensures Valid() && isSorted && fresh(Repr - old(Repr))
      ensures Contents == Sorting.InsertSorted(MergeSort(old(Contents), Id), value)
    {
      EnsureSorted();
      InsertIntoSorted(value);
    }

    /** The insertion proper on a list flagged sorted (List.h:740-762): at the front, at the back or before the first value not below `value`. */
    method InsertIntoSorted(value: int)
      requires Valid() && isSorted
      modifies Repr
      ensures Valid() && isSorted && fresh(Repr - old(Repr))
      ensures Contents == Sorting.InsertSorted(old(Contents), value)
    {
      ghost var s := Contents;
      InsertSortedCorrect(s, value);
      if size == 0 || value <= head.data {
        InsertSortedAtFront(s, value);
        PushFront(value);
        return;
      }
      if value >= tail.data {
        InsertSortedAtEnd(s, value);
        PushBack(value);
        return;
      }
      var current, k := SkipLess(value);
      FirstNotLessAt(s, value, k);
      var _ := SpliceBefore(current, k, value);
    }

    /** Walks from the head past the values below `value` (List.h:750-753): `current` ends at position `k`, the first holding a value not below it, or null. */
    method SkipLess(value: int) returns (current: Node?, ghost k: nat)
      requires Linked()
      ensures k <= |nodes| && current == if k < |nodes| then nodes[k] else null
      ensures forall t :: 0 <= t < k ==> Contents[t] < value
      ensures k < |nodes| ==> value <= Contents[k]
    {
      current := head;
      k := 0;
      while current != null && current.data < value
        invariant k <= |nodes| && current == if k < |nodes| then nodes[k] else null
        invariant forall t :: 0 <= t < k ==> Contents[t] < value
        decreases |nodes| - k
      {
        current := current.next;
        k := k + 1;
      }
    }

    /** Sort by the comparator `less`: the values are gathered, sorted and written back into the same nodes in order, and the flag is cleared, even for fewer than two values (List.h:1291-1316). */
    method SortBy(less: (int, int) -> bool)
      requires Valid()
      modifies Repr
      ensures Valid() && !isSorted && nodes == old(nodes) && Repr == old(Repr)
      ensures multiset(Contents) == multiset(old(Contents))
      ensures StrictWeakOrder(less) ==> SortedUnder(Contents, less)
    {
      if size <= 1 {
        SetFlag(false);
        return;
      }
      InsertionSortByCorrect(Contents, less);
      SortValues(less);
      SetFlag(false);
    }

    /** The values are copied out, sorted and written back into the same nodes (List.h:1298-1314); `InsertionSortBy` stands in for `std::sort`. */
    method SortValues(less: (int, int) -> bool)
      requires Valid()
      modifies this`Contents, Elements(nodes)`data
      ensures Linked() && Contents == InsertionSortBy(old(Contents), less)
      ensures isSorted == old(isSorted) && nodes == old(nodes) && Repr == old(Repr)
    {
      var temp := ToVector();
      temp := InsertionSortBy(temp, less);
      WriteBack(temp);
    }

    /** Stores the values of `vs` into the nodes from head to tail, one each (List.h:1310-1314). */
    method WriteBack(vs: seq<int>)
      requires Linked() && |vs| == |nodes|
      modifies this`Contents, Elements(nodes)`data
      ensures Linked() && Contents == vs
      ensures isSorted == old(isSorted) && nodes == old(nodes) && Repr == old(Repr)
    {
      var current := head;
      var k := 0;
      while k < |vs|
        invariant Linked() && nodes == old(nodes) && Repr == old(Repr) && isSorted == old(isSorted)
        invariant k <= |vs| && current == if k < |nodes| then nodes[k] else null
        invariant forall t :: 0 <= t < k ==> Contents[t] == vs[t]
        invariant forall t :: k <= t < |nodes| ==> Contents[t] == old(Contents)[t]
      {
        SetData(current, k, vs[k]);
        current := current.next;
        k := k + 1;
      }
    }

    /** Appends the values of `src` from position `i` on, walking from `c`, the node there (List.h:1422-1425, List.h:1427-1430). */
    method AppendRest(src: List, c: Node?, ghost i: nat)
      requires Valid() && src.Valid() && Repr !! src.Repr
      requires i <= |src.nodes| && c == if i < |src.nodes| then src.nodes[i] else null
      requires isSorted == Sorted(Contents)
      modifies Repr
      ensures Valid() && fresh(Repr - old(Repr)) && Repr !! src.Repr
      ensures Contents == old(Contents) + src.Contents[i..]
      ensures isSorted == Sorted(Contents)
    {
      var current := c;
      ghost var j := i;
      while current != null
        invariant Valid() && src.Valid() && fresh(Repr - old(Repr)) && Repr !! src.Repr
        invariant i <= j <= |src.nodes| && current == if j < |src.nodes| then src.nodes[j] else null
        invariant Contents == old(Contents) + src.Contents[i..j]
        invariant isSorted == Sorted(Contents)
        decreases |src.nodes| - j
      {
        current := AppendOne(src, current, i, j, old(Contents));
        j := j + 1;
      }
    }

    /** One pass of the loop of List.h:1422-1425: appends the value of `current`, the `j`-th node of `src`, and returns its successor. */
    method AppendOne(src: List, current: Node, ghost i: nat, ghost j: nat, ghost oc: seq<int>) returns (next: Node?)
      requires Valid() && src.Valid() && Repr !! src.Repr && i <= j < |src.nodes| && current == src.nodes[j]
      requires Contents == oc + src.Contents[i..j] && isSorted == Sorted(Contents)
      modifies Repr
      ensures Valid() && fresh(Repr - old(Repr)) && Repr !! src.Repr
      ensures Contents == oc + src.Contents[i..j + 1] && isSorted == Sorted(Contents)
      ensures next == if j + 1 < |src.nodes| then src.nodes[j + 1] else null
    {
      assert src.Contents[i..j + 1] == src.Contents[i..j] + [current.data];
      ConcatAssoc(oc, src.Contents[i..j], [current.data]);
      PushBackExact(current.data);
      next := current.next;
    }

    /** Appends the head `first` picks from `c1` in `a` (position `i`) and `c2` in `b` (position `j`) and advances past it (List.h:1411-1419, List.h:1442-1450). */
    method MergeStep(a: List, b: List, first: (int, int) -> bool, c1: Node, c2: Node, ghost i: nat, ghost j: nat)
      returns (d1: Node?, d2: Node?, ghost i': nat, ghost j': nat)
      requires Valid() && a.Valid() && b.Valid() && Repr !! a.Repr && Repr !! b.Repr
      requires i < |a.nodes| && c1 == a.nodes[i] && j < |b.nodes| && c2 == b.nodes[j]
      requires isSorted == Sorted(Contents)
      modifies Repr
      ensures Valid() && fresh(Repr - old(Repr)) && Repr !! a.Repr && Repr !! b.Repr
      ensures i' <= |a.nodes| && d1 == if i' < |a.nodes| then a.nodes[i'] else null
      ensures j' <= |b.nodes| && d2 == if j' < |b.nodes| then b.nodes[j'] else null
      ensures i' + j' == i + j + 1
      ensures Contents + MergeBy(a.Contents[i'..], b.Contents[j'..], first) == old(Contents) + MergeBy(a.Contents[i..], b.Contents[j..], first)
      ensures isSorted == Sorted(Contents)
    {
      MergeByStep(a.Contents, b.Contents, i, j, first);
      var x;
      if first(c1.data, c2.data) {
        x, d1, d2, i', j' := c1.data, c1.next, c2, i + 1, j;
      } else {
        x, d1, d2, i', j' := c2.data, c1, c2.next, i, j + 1;
      }
      ConcatAssoc(Contents, [x], MergeBy(a.Contents[i'..], b.Contents[j'..], first));
      PushBackExact(x);
    }

    /** Appends values while both `a` and `b` have some left (List.h:1408-1420, List.h:1439-1451); `c1` and `c2` end at positions `i` and `j`, one of them past its end. */
    method Interleave(a: List, b: List, first: (int, int) -> bool) returns (c1: Node?, c2: Node?, ghost i: nat, ghost j: nat)
      requires Valid() && a.Valid() && b.Valid() && Repr !! a.Repr && Repr !! b.Repr
      requires isSorted == Sorted(Contents)
      modifies Repr
      ensures Valid() && fresh(Repr - old(Repr)) && Repr !! a.Repr && Repr !! b.Repr
      ensures i <= |a.nodes| && c1 == if i < |a.nodes| then a.nodes[i] else null
      ensures j <= |b.nodes| && c2 == if j < |b.nodes| then b.nodes[j] else null
      ensures c1 == null || c2 == null
      ensures Contents + MergeBy(a.Contents[i..], b.Contents[j..], first) == old(Contents) + MergeBy(a.Contents, b.Contents, first)
      ensures isSorted == Sorted(Contents)
    {
      c1, c2 := a.head, b.head;
      i, j := 0, 0;
      assert a.Contents[0..] == a.Contents && b.Contents[0..] == b.Contents;
      while c1 != null && c2 != null
        invariant Valid() && fresh(Repr - old(Repr)) && Repr !! a.Repr && Repr !! b.Repr
        invariant i <= |a.nodes| && c1 == if i < |a.nodes| then a.nodes[i] else null
        invariant j <= |b.nodes| && c2 == if j < |b.nodes| then b.nodes[j] else null
        invariant Contents + MergeBy(a.Contents[i..], b.Contents[j..], first) == old(Contents) + MergeBy(a.Contents, b.Contents, first)
        invariant isSorted == Sorted(Contents)
        decreases |a.nodes| - i + |b.nodes| - j
      {
        c1, c2, i, j := MergeStep(a, b, first, c1, c2, i, j);
      }
    }

    /** Appends the merge of the values of `a` and `b` (List.h:1408-1430, List.h:1439-1461): after the interleaving at most one run has values left, and they follow in order. */
    method AppendMerged(a: List, b: List, first: (int, int) -> bool)
      requires Valid() && a.Valid() && b.Valid() && Repr !! a.Repr && Repr !! b.Repr
      requires isSorted == Sorted(Contents)
      modifies Repr
      ensures Valid() && fresh(Repr - old(Repr)) && Repr !! a.Repr && Repr !! b.Repr
      ensures Contents == old(Contents) + MergeBy(a.Contents, b.Contents, first)
      ensures isSorted == Sorted(Contents)
    {
      var c1, c2, i, j := Interleave(a, b, first);
      ghost var xs, ys := a.Contents, b.Contents;
      if c1 != null {
        assert ys[j..] == [] && MergeBy(xs[i..], ys[j..], first) == xs[i..];
        AppendRest(a, c1, i);
      } else {
        assert xs[i..] == [] && MergeBy(xs[i..], ys[j..], first) == ys[j..];
        AppendRest(b, c2, j);
      }
    }

    /** The end of both `merge` overloads: `result` is move-assigned to this list and `other` is cleared (List.h:1432-1433, List.h:1463-1464). */
    method TakeMerged(result: List, other: List)
      requires Valid() && result.Valid() && other.Valid()
      requires Repr !! result.Repr && Repr !! other.Repr && result.Repr !! other.Repr
      modifies Repr, result, other.Repr
      ensures Valid() && other.Valid() && Repr !! other.Repr && Repr <= old(Repr) + old(result.Repr)
      ensures Contents == old(result.Contents) && isSorted == old(result.isSorted)
      ensures other.Contents == [] && other.isSorted
    {
      MoveAssign(result);
      other.Clear();
    }

    /** Merge `other` into this list: each side whose flag is clear is sorted first, then the two runs are merged as by `MergeWithBy`, the head of this list going first unless it is greater (List.h:1402-1433). */
    method MergeWith(other: List)
      requires Valid() && other.Valid() && Repr !! other.Repr
      modifies Repr, other.Repr
      ensures Valid() && other.Valid() && Repr !! other.Repr && fresh(Repr - old(Repr))
      ensures Contents == Merge(MergeSort(old(Contents), Id), MergeSort(old(other.Contents), Id), Id)
      ensures isSorted && other.Contents == [] && other.isSorted
    {
      EnsureSorted();
      other.EnsureSorted();
      ghost var a, b := Contents, other.Contents;
      MergeByAtMostSorted(a, b);
      MergeWithBy(other, AtMost);
    }

    /** Merge `other` into this list as the comparator `first` orders the two runs, without sorting either; the result is move-assigned here and `other` is cleared (List.h:1436-1464). */
    method MergeWithBy(other: List, first: (int, int) -> bool)
      requires Valid() && other.Valid() && Repr !! other.Repr
      modifies Repr, other.Repr
      ensures Valid() && other.Valid() && Repr !! other.Repr && fresh(Repr - old(Repr))
      ensures Contents == MergeBy(old(Contents), old(other.Contents), first)
      ensures isSorted == Sorted(Contents) && other.Contents == [] && other.isSorted
    {
      var result := new List();
      result.AppendMerged(this, other, first);
      TakeMerged(result, other);
    }

    /** Whether every value is at most its successor, checked by walking the links (List.h:1367-1381). */
    method IsSortedCheck() returns (ok: bool)
      requires Valid()
      ensures ok == Sorted(Contents)
    {
      AdjacentSortedIsSorted(Contents);
      if size <= 1 {
        return true;
      }
      var current := head;
      ghost var i := 0;
      while current.next != null
        invariant i < |nodes| && current == nodes[i]
        invariant forall t :: 0 <= t < i ==> Contents[t] <= Contents[t + 1]
        decreases |nodes| - i
      {
        if current.data > current.next.data {
          return false;
        }
        current := current.next;
        i := i + 1;
      }
      return true;
    }

    /** Whether `ok` holds of every value and its successor (List.h:1384-1398). */
    method IsSortedCheckBy(ok: (int, int) -> bool) returns (r: bool)
      requires Valid()
      ensures r == AdjacentBy(Contents, ok)
    {
      if size <= 1 {
        return true;
      }
      var current := head;
      ghost var i := 0;
      while current.next != null
        invariant i < |nodes| && current == nodes[i]
        invariant forall t :: 0 <= t < i ==> ok(Contents[t], Contents[t + 1])
        decreases |nodes| - i
      {
        if !ok(current.data, current.next.data) {
          return false;
        }
        current := current.next;
        i := i + 1;
      }
      return true;
    }

    /** Pops every element, then sets the flag (List.h:1468-1473). */
    method Clear()
      requires Valid()
      modifies Repr
      ensures Valid() && Contents == [] && nodes == [] && isSorted && Repr <= old(Repr)
    {
      while size != 0
        invariant Valid() && Repr <= old(Repr)
        decreases size
      {
        var _ := PopFront();
      }
      SetFlag(true);
    }

    /** Walks from the head along the old `next` links and exchanges each node's `next` and `prev` (List.h:1482-1490); `temp` ends at the old second-to-last node. */
    method FlipLinks() returns (temp: Node?)
      requires Linked() && |nodes| >= 2
      modifies Elements(nodes)`next, Elements(nodes)`prev
      ensures forall t {:trigger nodes[t].next} :: 0 <= t < |nodes| ==> nodes[t].next == if t == 0 then null else nodes[t - 1]
      ensures forall t {:trigger nodes[t].prev} :: 0 <= t < |nodes| ==> nodes[t].prev == if t == |nodes| - 1 then null else nodes[t + 1]
      ensures temp == nodes[|nodes| - 2]
    {
      var current := head;
      temp := null;
      ghost var j := 0;
      while current != null
        invariant Distinct(nodes) && j <= |nodes| && current == if j < |nodes| then nodes[j] else null
        invariant temp == if j < 2 then null else nodes[j - 2]
        invariant forall t {:trigger nodes[t].next} :: 0 <= t < j ==> nodes[t].next == if t == 0 then null else nodes[t - 1]
        invariant forall t {:trigger nodes[t].prev} :: 0 <= t < j ==> nodes[t].prev == if t == |nodes| - 1 then null else nodes[t + 1]
        invariant forall t {:trigger nodes[t].next} :: j <= t < |nodes| ==> nodes[t].next == if t == |nodes| - 1 then null else nodes[t + 1]
        invariant forall t {:trigger nodes[t].prev} :: j <= t < |nodes| ==> nodes[t].prev == if t == 0 then null else nodes[t - 1]
        decreases |nodes| - j
      {
        assert forall t :: 0 <= t < |nodes| && t != j ==> nodes[t] != current;
        temp := current.prev;
        Exchange(current);
        current := current.prev;
        j := j + 1;
      }
    }

    /** Exchanges the `next` and `prev` links of one node (List.h:1486-1488). */
    static method Exchange(n: Node)
      modifies n`next, n`prev
      ensures n.next == old(n.prev) && n.prev == old(n.next)
    {
      var t := n.prev;
      n.prev := n.next;
      n.next := t;
    }

    /** Reversal as the source writes it: every link is flipped, but the final exchange of the ends leaves both `head` and `tail` at the old tail (List.h:1477-1498). */
    method ReverseAsWritten()
      requires Valid()
      modifies Repr
      ensures old(size) <= 1 ==> Valid() && Contents == old(Contents) && isSorted == old(isSorted)
      ensures old(size) >= 2 ==> head == old(tail) && tail == old(tail) && tail.next != null && !isSorted
    {
      if size <= 1 {
        return;
      }
      ghost var ns := nodes;
      var temp := FlipLinks();
      if temp != null {
        head := temp.prev;
      }
      head, tail := tail, head;
      isSorted := false;
      assert tail == ns[|ns| - 1] && tail.next == ns[|ns| - 2];
    }

    /** Reversal with the ends put right: the links are flipped as in the source, then the old tail becomes the head and the old head the tail. */
    method Reverse()
      requires Valid()
      modifies Repr
      ensures Valid() && Repr == old(Repr)
      ensures nodes == Reversed(old(nodes)) && Contents == Reversed(old(Contents))
      ensures isSorted == (old(isSorted) && old(size) <= 1)
    {
      if size <= 1 {
        assert Reversed(nodes) == nodes && Reversed(Contents) == Contents;
        return;
      }
      var oldHead := head;
      var temp := FlipLinks();
      if temp != null {
        head := temp.prev;
      }
      tail := oldHead;
      isSorted := false;
      ghost var ns := Reversed(nodes);
      ghost var cs := Reversed(Contents);
      assert forall t {:trigger ns[t].next} :: 0 <= t < |ns| - 1 ==> ns[t].next == ns[t + 1];
      assert forall t {:trigger ns[t].prev} :: 0 < t < |ns| ==> ns[t].prev == ns[t - 1];
      Take(head, tail, size, false, ns, cs, Repr);
    }

    /** Makes this list the owner of the chain `ns` from `h` to `t`, holding `cs`, flagged `s`, with footprint `r`. */
    method Take(h: Node?, t: Node?, n: nat, s: bool, ghost ns: seq<Node>, ghost cs: seq<int>, ghost r: set<object>)
      requires this in r && n == |ns| && (forall i :: 0 <= i < |ns| ==> ns[i] in r)
      requires forall i, j :: 0 <= i < j < |ns| ==> ns[i] != ns[j]
      requires if ns == [] then h == null && t == null else h == ns[0] && t == ns[|ns| - 1] && h.prev == null && t.next == null
      requires |cs| == |ns| && forall i :: 0 <= i < |ns| ==> ns[i].data == cs[i]
      requires forall i {:trigger ns[i].next} :: 0 <= i < |ns| - 1 ==> ns[i].next == ns[i + 1]
      requires forall i {:trigger ns[i].prev} :: 0 < i < |ns| ==> ns[i].prev == ns[i - 1]
      requires s ==> Sorted(cs)
      modifies this
      ensures Valid() && head == h && tail == t && isSorted == s && nodes == ns && Contents == cs && Repr == r
    {
      Install(h, t, n, ns, cs, r);
      isSorted := s;
    }

    /** Exchanges the two lists' links, sizes and flags (List.h:1502-1507). */
    method Swap(other: List)
      requires Valid() && other.Valid()
      modifies this, other
      ensures Valid() && other.Valid()
      ensures Contents == old(other.Contents) && other.Contents == old(Contents)
      ensures nodes == old(other.nodes) && other.nodes == old(nodes)
      ensures isSorted == old(other.isSorted) && other.isSorted == old(isSorted)
    {
      if other != this {
        var h, t, n, s := head, tail, size, isSorted;
        ghost var ns, cs, r := nodes, Contents, Repr;
        Take(other.head, other.tail, other.size, other.isSorted, other.nodes, other.Contents, other.Repr - {other} + {this});
        other.Take(h, t, n, s, ns, cs, r - {this} + {other});
      }
    }

    /** Pops from the back down to `newSize`, or appends `value` up to it (List.h:1511-1521). */
    method Resize(newSize: nat, value: int)
      requires Valid()
      modifies Repr
      ensures Valid() && fresh(Repr - old(Repr))
      ensures newSize <= |old(Contents)| ==> Contents == old(Contents)[..newSize]
      ensures newSize > |old(Contents)| ==> |Contents| == newSize && Contents[..|old(Contents)|] == old(Contents)
      ensures forall i :: |old(Contents)| <= i < |Contents| ==> Contents[i] == value
      ensures isSorted == (old(isSorted) && (newSize <= |old(Contents)| || old(Contents) == [] || old(Contents)[|old(Contents)| - 1] <= value))
    {
      if newSize < size {
        TruncateTo(newSize);
      } else if newSize > size {
        GrowTo(newSize, value);
      } else {
        assert Contents[..newSize] == Contents;
      }
    }

    /** The shrinking loop of List.h:1513-1515: pops from the back until `newSize` values are left. */
    method TruncateTo(newSize: nat)
      requires Valid() && newSize <= |Contents|
      modifies Repr
      ensures Valid() && isSorted == old(isSorted) && Repr <= old(Repr)
      ensures Contents == old(Contents)[..newSize]
    {
      ghost var oc := Contents;
      while size > newSize
        invariant Valid() && isSorted == old(isSorted) && newSize <= size <= |oc| && Repr <= old(Repr)
        invariant Contents == oc[..size]
        decreases size
      {
        var _ := PopBack();
      }
    }

    /** The growing loop of List.h:1516-1519: appends `value` until there are `newSize` values. */
    method GrowTo(newSize: nat, value: int)
      requires Valid() && |Contents| <= newSize
      modifies Repr
      ensures Valid() && fresh(Repr - old(Repr))
      ensures |Contents| == newSize && Contents[..|old(Contents)|] == old(Contents)
      ensures forall i :: |old(Contents)| <= i < |Contents| ==> Contents[i] == value
      ensures isSorted == (old(isSorted) && (newSize == |old(Contents)| || old(Contents) == [] || old(Contents)[|old(Contents)| - 1] <= value))
    {
      ghost var oc, n := Contents, size;
      while size < newSize
        invariant Valid() && n <= size <= newSize && |Contents| == size && fresh(Repr - old(Repr))
        invariant Contents[..n] == oc
        invariant forall i :: n <= i < size ==> Contents[i] == value
        invariant isSorted == (old(isSorted) && (size == n || oc == [] || oc[n - 1] <= value))
        decreases newSize - size
      {
        ghost var before := Contents;
        PushBack(value);
        assert Contents[..n] == before[..n];
      }
    }

    /** One step of the duplicate scan at the node `p`, position `k`: unlink its successor when `same` relates the two. */
    method SiftNext(p: Node, ghost k: nat, same: (int, int) -> bool) returns (dropped: bool)
      requires Valid() && k + 1 < |nodes| && nodes[k] == p
      modifies Repr
      ensures Valid() && isSorted == old(isSorted) && Repr <= old(Repr) && k < |nodes| && nodes[k] == p
      ensures dropped == same(old(Contents)[k], old(Contents)[k + 1])
      ensures dropped ==> Contents == old(Contents)[..k + 1] + old(Contents)[k + 2..] && |nodes| == |old(nodes)| - 1
      ensures !dropped ==> Contents == old(Contents) && nodes == old(nodes)
    {
      var duplicate := p.next;
      dropped := same(p.data, duplicate.data);
      if dropped {
        SortedRemove(Contents, k + 1);
        Unlink(duplicate, k + 1);
      }
    }

    /** Remove each node that `same` relates to the last node kept before it (List.h:1549-1570). */
    method UniqueBy(same: (int, int) -> bool)
      requires Valid()
      modifies Repr
      ensures Valid() && isSorted == old(isSorted) && Repr <= old(Repr)
      ensures Contents == Dedup(old(Contents), same)
    {
      if size <= 1 {
        assert old(Contents) == [] || old(Contents)[1..] == [];
        return;
      }
      DedupScanEnds(Contents, same);
      ghost var target := Dedup(Contents, same);
      var current := head;
      ghost var a := 0;
      while current != null && current.next != null
        invariant Valid() && isSorted == old(isSorted) && Repr <= old(Repr)
        invariant a < |nodes| && current == nodes[a]
        invariant target == DedupPending(Contents, a, same)
        decreases |nodes| - a
      {
        DedupScan(Contents, a, same);
        var dropped := SiftNext(current, a, same);
        if !dropped {
          current := current.next;
          a := a + 1;
        }
      }
      DedupScanEnds(Contents, same);
    }

    /** Remove each node equal to its predecessor (List.h:1525-1546). */
    method Unique()
      requires Valid()
      modifies Repr
      ensures Valid() && isSorted == old(isSorted) && Repr <= old(Repr)
      ensures Contents == Dedup(old(Contents), Same)
    {
      UniqueBy(Same);
    }

    /** Apply `f` to every value in place, leaving the flag as it was (List.h:1574-1580). */
    method ForEachAsWritten(f: int -> int)
      requires Valid()
      modifies this`Contents, nodes
      ensures Linked() && nodes == old(nodes) && Repr == old(Repr) && isSorted == old(isSorted)
      ensures Contents == MapSeq(old(Contents), f)
    {
      var current := head;
      ghost var i := 0;
      while current != null
        invariant Linked() && nodes == old(nodes) && Repr == old(Repr) && isSorted == old(isSorted)
        invariant i <= |nodes| && current == if i < |nodes| then nodes[i] else null
        invariant |Contents| == |old(Contents)|
        invariant forall t :: 0 <= t < i ==> Contents[t] == f(old(Contents)[t])
        invariant forall t :: i <= t < |Contents| ==> Contents[t] == old(Contents)[t]
        decreases |nodes| - i
      {
        SetData(current, i, f(current.data));
        current := current.next;
        i := i + 1;
      }
    }

    /** Apply `f` to every value in place; the flag is cleared, since `f` need not keep the order (List.h:1574-1580). */
    method ForEach(f: int -> int)
      requires Valid()
      modifies this, nodes
      ensures Valid() && nodes == old(nodes) && Repr == old(Repr) && !isSorted
      ensures Contents == MapSeq(old(Contents), f)
    {
      isSorted := false;
      var current := head;
      ghost var i := 0;
      while current != null
        invariant Linked() && nodes == old(nodes) && Repr == old(Repr) && !isSorted
        invariant i <= |nodes| && current == if i < |nodes| then nodes[i] else null
        invariant |Contents| == |old(Contents)|
        invariant forall t :: 0 <= t < i ==> Contents[t] == f(old(Contents)[t])
        invariant forall t :: i <= t < |Contents| ==> Contents[t] == old(Contents)[t]
        decreases |nodes| - i
      {
        SetData(current, i, f(current.data));
        current := current.next;
        i := i + 1;
      }
    }

    /** Whether every value satisfies `pred` (List.h:1592-1601). */
    method AllOf(pred: int -> bool) returns (r: bool)
      requires Valid()
      ensures r <==> forall i :: 0 <= i < |Contents| ==> pred(Contents[i])
    {
      var current := head;
      ghost var i := 0;
      while current != null
        invariant i <= |nodes| && current == if i < |nodes| then nodes[i] else null
        invariant forall t :: 0 <= t < i ==> pred(Contents[t])
        decreases |nodes| - i
      {
        if !pred(current.data) {
          return false;
        }
        current := current.next;
        i := i + 1;
      }
      return true;
    }

    /** Whether some value satisfies `pred` (List.h:1604-1613). */
    method AnyOf(pred: int -> bool) returns (r: bool)
      requires Valid()
      ensures r <==> exists i :: 0 <= i < |Contents| && pred(Contents[i])
    {
      var current := head;
      ghost var i := 0;
      while current != null
        invariant i <= |nodes| && current == if i < |nodes| then nodes[i] else null
        invariant forall t :: 0 <= t < i ==> !pred(Contents[t])
        decreases |nodes| - i
      {
        if pred(current.data) {
          return true;
        }
        current := current.next;
        i := i + 1;
      }
      return false;
    }

    /** Whether no value satisfies `pred` (List.h:1616-1618). */
    method NoneOf(pred: int -> bool) returns (r: bool)
      requires Valid()
      ensures r <==> forall i :: 0 <= i < |Contents| ==> !pred(Contents[i])
    {
      var any := AnyOf(pred);
      return !any;
    }

    /** A new list of `mapper` applied to every value, built by appending (List.h:1622-1630). */
    method MapTo(mapper: int -> int) returns (result: List)
      requires Valid()
      ensures fresh(result) && fresh(result.Repr) && result.Valid()
      ensures result.Contents == MapSeq(Contents, mapper)
      ensures result.isSorted == Sorted(result.Contents)
    {
      result := new List();
      result.AppendMapped(this, mapper);
    }

    /** Appends `mapper` of each of `src`'s values to this empty list (List.h:1624-1628). */
    method AppendMapped(src: List, mapper: int -> int)
      requires Valid() && src.Valid() && Repr !! src.Repr && Contents == [] && isSorted
      modifies Repr
      ensures Valid() && fresh(Repr - old(Repr))
      ensures Contents == MapSeq(src.Contents, mapper) && isSorted == Sorted(Contents)
    {
      var current := src.head;
      ghost var i := 0;
      while current != null
        invariant Valid() && Repr !! src.Repr && fresh(Repr - old(Repr))
        invariant i <= |src.nodes| && current == if i < |src.nodes| then src.nodes[i] else null
        invariant |Contents| == i
        invariant forall t :: 0 <= t < i ==> Contents[t] == mapper(src.Contents[t])
        invariant isSorted == Sorted(Contents)
        decreases |src.nodes| - i
      {
        PushBackExact(mapper(current.data));
        current := current.next;
        i := i + 1;
      }
    }

    /** Appends `x` when it satisfies `pred`, keeping an exact flag exact (List.h:1637-1639). */
    method PushBackIf(x: int, pred: int -> bool)
      requires Valid() && isSorted == Sorted(Contents)
      modifies Repr
      ensures Valid() && fresh(Repr - old(Repr))
      ensures Contents == old(Contents) + (if pred(x) then [x] else []) && isSorted == Sorted(Contents)
    {
      if pred(x) {
        PushBackExact(x);
      } else {
        assert old(Contents) + [] == old(Contents);
      }
    }

    /** A new list of the values satisfying `pred`, in order (List.h:1633-1643). */
    method FilterTo(pred: int -> bool) returns (result: List)
      requires Valid()
      ensures fresh(result) && fresh(result.Repr) && result.Valid()
      ensures result.Contents == Filter(Contents, pred)
      ensures result.isSorted == Sorted(result.Contents)
    {
      result := new List();
      result.AppendFiltered(this, pred);
    }

    /** Appends each of `src`'s values that satisfies `pred` to this empty list (List.h:1635-1641). */
    method AppendFiltered(src: List, pred: int -> bool)
      requires Valid() && src.Valid() && Repr !! src.Repr && Contents == [] && isSorted
      modifies Repr
      ensures Valid() && fresh(Repr - old(Repr))
      ensures Contents == Filter(src.Contents, pred) && isSorted == Sorted(Contents)
    {
      var current := src.head;
      ghost var i := 0;
      while current != null
        invariant Valid() && src.Valid() && Repr !! src.Repr && fresh(Repr - old(Repr))
        invariant i <= |src.nodes| && current == if i < |src.nodes| then src.nodes[i] else null
        invariant Contents == Filter(src.Contents[..i], pred)
        invariant isSorted == Sorted(Contents)
        decreases |src.nodes| - i
      {
        current := FilterOne(src, current, i, pred);
        i := i + 1;
      }
      assert src.Contents[..i] == src.Contents;
    }

    /** One pass of the loop of List.h:1637-1640: appends the value of `current`, the `i`-th node of `src`, when it satisfies `pred`, and returns its successor. */
    method FilterOne(src: List, current: Node, ghost i: nat, pred: int -> bool) returns (next: Node?)
      requires Valid() && src.Valid() && Repr !! src.Repr && i < |src.nodes| && current == src.nodes[i]
      requires Contents == Filter(src.Contents[..i], pred) && isSorted == Sorted(Contents)
      modifies Repr
      ensures Valid() && fresh(Repr - old(Repr)) && Repr !! src.Repr
      ensures Contents == Filter(src.Contents[..i + 1], pred) && isSorted == Sorted(Contents)
      ensures next == if i + 1 < |src.nodes| then src.nodes[i + 1] else null
    {
      FilterStep(src.Contents, i, pred);
      PushBackIf(current.data, pred);
      next := current.next;
    }

    /** The values folded from the front with `reducer`, starting at `initial` (List.h:1647-1655). */
    method Reduce(initial: int, reducer: (int, int) -> int) returns (r: int)
      requires Valid()
      ensures r == FoldLeft(reducer, initial, Contents)
    {
      r := initial;
      var current := head;
      ghost var i := 0;
      while current != null
        invariant i <= |nodes| && current == if i < |nodes| then nodes[i] else null
        invariant r == FoldLeft(reducer, initial, Contents[..i])
        decreases |nodes| - i
      {
        assert Contents[..i + 1] == Contents[..i] + [Contents[i]];
        FoldLeftAppend(reducer, initial, Contents[..i], Contents[i]);
        r := reducer(r, current.data);
        current := current.next;
        i := i + 1;
      }
      assert Contents[..i] == Contents;
    }

    /** The values from head to tail (List.h:1659-1668). */
    method ToVector() returns (v: seq<int>)
      requires Valid()
      ensures v == Contents
    {
      v := [];
      var current := head;
      while current != null
        invariant |v| <= |nodes| && current == if |v| < |nodes| then nodes[|v|] else null
        invariant v == Contents[..|v|]
        decreases |nodes| - |v|
      {
        v := v + [current.data];
        current := current.next;
      }
    }

    /** The values from tail to head (List.h:1671-1680). */
    method ToVectorReverse() returns (v: seq<int>)
      requires Valid()
      ensures v == Reversed(Contents)
    {
      v := [];
      var current := tail;
      while current != null
        invariant |v| <= |nodes| && current == if |v| < |nodes| then nodes[|nodes| - 1 - |v|] else null
        invariant forall t :: 0 <= t < |v| ==> v[t] == Contents[|Contents| - 1 - t]
        decreases |nodes| - |v|
      {
        v := v + [current.data];
        current := current.prev;
      }
    }

    /** Whether both lists hold the same values in the same order (List.h:1684-1701). */
    method Equal(other: List) returns (r: bool)
      requires Valid() && other.Valid()
      ensures r == (Contents == other.Contents)
    {
      if size != other.size {
        return false;
      }
      var current1, current2 := head, other.head;
      ghost var i := 0;
      while current1 != null && current2 != null
        invariant i <= |nodes| == |other.nodes|
        invariant current1 == (if i < |nodes| then nodes[i] else null)
        invariant current2 == (if i < |other.nodes| then other.nodes[i] else null)
        invariant Contents[..i] == other.Contents[..i]
        decreases |nodes| - i
      {
        if current1.data != current2.data {
          return false;
        }
        assert Contents[..i + 1] == Contents[..i] + [Contents[i]];
        assert other.Contents[..i + 1] == other.Contents[..i] + [other.Contents[i]];
        current1, current2 := current1.next, current2.next;
        i := i + 1;
      }
      assert Contents[..i] == Contents && other.Contents[..i] == other.Contents;
      return current1 == null && current2 == null;
    }

    /** The negation of `Equal` (List.h:1704-1706). */
    method NotEqual(other: List) returns (r: bool)
      requires Valid() && other.Valid()
      ensures r == (Contents != other.Contents)
    {
      var eq := Equal(other);
      return !eq;
    }

    /** Lexicographic comparison: the first differing pair decides, and a proper prefix is less (List.h:1709-1724). */
    method Less(other: List) returns (r: bool)
      requires Valid() && other.Valid()
      ensures r == LexLess(Contents, other.Contents)
    {
      var current1, current2 := head, other.head;
      ghost var i := 0;
      while current1 != null && current2 != null
        invariant i <= |nodes| && i <= |other.nodes|
        invariant current1 == (if i < |nodes| then nodes[i] else null)
        invariant current2 == (if i < |other.nodes| then other.nodes[i] else null)
        invariant LexLess(Contents, other.Contents) == LexLess(Contents[i..], other.Contents[i..])
        decreases |nodes| - i
      {
        if current1.data < current2.data {
          return true;
        } else if current1.data > current2.data {
          return false;
        }
        assert Contents[i..][1..] == Contents[i + 1..] && other.Contents[i..][1..] == other.Contents[i + 1..];
        current1, current2 := current1.next, current2.next;
        i := i + 1;
      }
      return current1 == null && current2 != null;
    }

    /** `Less` or `Equal` (List.h:1727-1729). */
    method LessEq(other: List) returns (r: bool)
      requires Valid() && other.Valid()
      ensures r == (LexLess(Contents, other.Contents) || Contents == other.Contents)
    {
      var lt := Less(other);
      var eq := Equal(other);
      return lt || eq;
    }

    /** The negation of `LessEq`: the other list is lexicographically less (List.h:1731-1734). */
    method Greater(other: List) returns (r: bool)
      requires Valid() && other.Valid()
      ensures r == LexLess(other.Contents, Contents)
    {
      var le := LessEq(other);
      LexLessTrichotomy(Contents, other.Contents);
      return !le;
    }

    /** The negation of `Less` (List.h:1736-1739). */
    method GreaterEq(other: List) returns (r: bool)
      requires Valid() && other.Valid()
      ensures r == (LexLess(other.Contents, Contents) || Contents == other.Contents)
    {
      var lt := Less(other);
      LexLessTrichotomy(Contents, other.Contents);
      LexLessIrreflexive(Contents);
      return !lt;
    }

    /** The integrity walk: forward and backward counts match `size` and every `next` has the matching `prev`; it always passes on a valid list (List.h:1785-1835). */
    method CheckIntegrity() returns (ok: bool)
      requires Valid()
      ensures ok
    {
      if size == 0 {
        return head == null && tail == null;
      }
      if size == 1 {
        return head == tail && head != null && head.prev == null && head.next == null;
      }
      var forwardCount := 0;
      var current := head;
      while current != null
        invariant forwardCount <= |nodes| && current == if forwardCount < |nodes| then nodes[forwardCount] else null
        decreases |nodes| - forwardCount
      {
        forwardCount := forwardCount + 1;
        if current.next == null && current != tail {
          return false;
        }
        current := current.next;
      }
      if forwardCount != size {
        return false;
      }
      var backwardCount := 0;
      current := tail;
      while current != null
        invariant backwardCount <= |nodes| && current == if backwardCount < |nodes| then nodes[|nodes| - 1 - backwardCount] else null
        decreases |nodes| - backwardCount
      {
        backwardCount := backwardCount + 1;
        if current.prev == null && current != head {
          return false;
        }
        current := current.prev;
      }
      if backwardCount != size {
        return false;
      }
      current := head;
      ghost var i := 0;
      while current != null && current.next != null
        invariant i < |nodes| && current == nodes[i]
        decreases |nodes| - i
      {
        if current.next.prev != current {
          return false;
        }
        current := current.next;
        i := i + 1;
      }
      return true;
    }
  }
}
