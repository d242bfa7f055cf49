/**
 * The singly-linked LIFO stack of Stack.h with `T` fixed to `int`: a chain of
 * nodes from the top down through `next`, and the number of nodes. The ghost
 * `Contents` lists the values from the top (index 0) to the bottom.
 */
module LinkedStack {
  import opened Wrappers
  import opened Sequences

  /** A value and the node below it (Stack.h:14-25). */
  class Node {
    var data: int
    var next: Node?

    constructor (value: int)
      ensures data == value && next == null
    {
      data := value;
      next := null;
    }
  }

  /** What is left around the first `v` of `c` after a scan up to index `k`: with it cut out, `RemoveFirstOf(c, v)`. */
  lemma SplitAtFirst(c: seq<int>, v: int, k: nat, found: bool, rest: seq<int>)
    requires k <= |c| && v !in c[..k]
    requires found ==> k < |c| && c[k] == v && rest == c[k + 1..]
    requires !found ==> k == |c| && rest == []
    ensures c[..k] + rest == RemoveFirstOf(c, v)
  {
    if found {
      RemoveFirstOfAt(c, v, k);
    } else {
      assert c[..k] == c;
      RemoveFirstOfCounts(c, v);
    }
  }

  /** Scanning `c[i]`: the kept values, held reversed in `t`, grow by `c[i]` in front unless it is `v`. */
  lemma KeptStep(t: seq<int>, c: seq<int>, i: nat, v: int)
    requires i < |c| && IsReversal(t, Filter(c[..i], Negate(EqualTo(v))))
    ensures c[i] != v ==> IsReversal([c[i]] + t, Filter(c[..i + 1], Negate(EqualTo(v))))
    ensures c[i] == v ==> IsReversal(t, Filter(c[..i + 1], Negate(EqualTo(v))))
  {
    FilterStep(c, i, Negate(EqualTo(v)));
    IsReversalCons(t, Filter(c[..i], Negate(EqualTo(v))), c[i]);
  }

  class Stack {
    var top: Node?
    var size: nat

    ghost var nodes: seq<Node>
    ghost var Contents: seq<int>
    ghost var Repr: set<object>

    /** The link structure: top to bottom through `next`, `size` nodes ending in null (what Stack.h:612-620 checks). */
    ghost predicate Valid()
      reads this, Repr
      ensures Valid() ==> this in Repr
    {
      && this in Repr
      && (forall i :: 0 <= i < |nodes| ==> nodes[i] in Repr)
      && size == |nodes|
      && (forall i, j :: 0 <= i < j < |nodes| ==> nodes[i] != nodes[j])
      && (if nodes == [] then top == null else top == nodes[0] && nodes[|nodes| - 1].next == null)
      && |Contents| == |nodes|
      && (forall i :: 0 <= i < |nodes| ==> nodes[i].data == Contents[i])
      && (forall i {:trigger nodes[i].next} :: 0 <= i < |nodes| - 1 ==> nodes[i].next == nodes[i + 1])
    }

    /** An empty stack (Stack.h:182). */
    constructor ()
      ensures Valid() && fresh(Repr) && Contents == []
    {
      top, size := null, 0;
      nodes, Contents := [], [];
      Repr := {this};
    }

    /** A stack of the values of `init` pushed first to last, so the last one is on top (Stack.h:199-203). */
    constructor FromSeq(init: seq<int>)
      ensures Valid() && fresh(Repr) && Contents == Reversed(init)
    {
      top, size := null, 0;
      nodes, Contents := [], [];
      Repr := {this};
      new;
      PushEach(init);
    }

    /** Makes this stack the chain `ns` from `t`. */
    method Take(t: Node?, n: nat, ghost ns: seq<Node>, ghost cs: seq<int>, ghost rs: set<object>)
      requires this in rs && n == |ns| && (forall i :: 0 <= i < |ns| ==> ns[i] in rs)
      requires forall i, j :: 0 <= i < j < |ns| ==> ns[i] != ns[j]
      requires if ns == [] then t == null else t == ns[0] && ns[|ns| - 1].next == null
      requires |cs| == |ns| && forall i :: 0 <= i < |ns| ==> ns[i].data == cs[i]
      requires forall i {:trigger ns[i].next} :: 0 <= i < |ns| - 1 ==> ns[i].next == ns[i + 1]
      modifies this
      ensures Valid() && top == t && nodes == ns && Contents == cs && Repr == rs
    {
      top, size, nodes, Contents, Repr := t, n, ns, cs, rs;
    }

    /** Pushes the values of `v` from the last to the first, so that `v` lies on top in its own order (Stack.h:226-228). */
    method PushBackwards(v: seq<int>)
      requires Valid()
      modifies Repr
      ensures Valid() && fresh(Repr - old(Repr))
      ensures Contents == v + old(Contents)
    {
      var i := |v|;
      while i > 0
        invariant 0 <= i <= |v| && Valid() && fresh(Repr - old(Repr))
        invariant Contents == v[i..] + old(Contents)
      {
        PrependSlice(v, i, old(Contents));
        Push(v[i - 1]);
        i := i - 1;
      }
    }

    /** Copy assignment: unless `other` is this stack, clear, collect `other`'s values top first and push them back to front (Stack.h:213-231). */
    method Assign(other: Stack)
      requires Valid() && other.Valid() && (other == this || Repr !! other.Repr)
      modifies Repr
      ensures Valid() && fresh(Repr - old(Repr))
      ensures Contents == old(other.Contents)
      ensures other != this ==> other.Valid() && Repr !! other.Repr
    {
      if other != this {
        Clear();
        var temp := other.ToVector();
        PushBackwards(temp);
      }
    }

    /** Copy construction: an empty stack copy-assigned from `other` (Stack.h:186-188). */
    constructor Copy(other: Stack)
      requires other.Valid()
      ensures Valid() && fresh(Repr) && Contents == other.Contents
    {
      top, size := null, 0;
      nodes, Contents := [], [];
      Repr := {this};
      new;
      Assign(other);
    }

    /** Move assignment: unless `other` is this stack, clear, take over `other`'s nodes and leave it empty (Stack.h:235-244). */
    method MoveAssign(other: Stack)
      requires Valid() && other.Valid() && (other == this || Repr !! other.Repr)
      modifies Repr, other
      ensures Valid() && other.Valid()
      ensures other != this ==> nodes == old(other.nodes) && Contents == old(other.Contents)
      ensures other != this ==> other.Contents == [] && Repr !! other.Repr
      ensures other == this ==> Contents == old(Contents)
    {
      if other != this {
        Clear();
        Take(other.top, other.size, other.nodes, other.Contents, Repr + (other.Repr - {other}));
        other.Take(null, 0, [], [], {other});
      }
    }

    /** Move construction: take over `other`'s nodes, leaving it empty (Stack.h:192-195). */
    constructor Move(other: Stack)
      requires other.Valid()
      modifies other
      ensures Valid() && other.Valid() && Repr !! other.Repr
      ensures nodes == old(other.nodes) && Contents == old(other.Contents) && other.Contents == []
    {
      top, size := null, 0;
      nodes, Contents := [], [];
      Repr := {this};
      new;
      Take(other.top, other.size, other.nodes, other.Contents, other.Repr - {other} + {this});
      other.Take(null, 0, [], [], {other});
    }

    /** Makes `value` the new top (Stack.h:248-253). */
    method Push(value: int)
      requires Valid()
      modifies Repr
      ensures Valid() && fresh(Repr - old(Repr))
      ensures Contents == [value] + old(Contents)
    {
      var n := new Node(value);
      n.next := top;
      top := n;
      size := size + 1;
      nodes, Contents, Repr := [n] + nodes, [value] + Contents, Repr + {n};
    }

    /** Drops the top value; Underflow when empty (Stack.h:277-285). */
    method Pop() returns (r: Result<()>)
      requires Valid()
      modifies this
      ensures Valid() && Repr <= old(Repr)
      ensures old(Contents) == [] ==> r == Err(Underflow) && Contents == old(Contents) && nodes == old(nodes) && Repr == old(Repr)
      ensures old(Contents) != [] ==> r == Ok(()) && Contents == old(Contents)[1..]
    {
      if top == null {
        return Err(Underflow);
      }
      var old_top := top;
      top := top.next;
      size := size - 1;
      nodes, Contents, Repr := nodes[1..], Contents[1..], Repr - {old_top};
      return Ok(());
    }

    /** Removes and returns the top value; Underflow when empty (Stack.h:289-296). */
    method PopAndReturn() returns (r: Result<int>)
      requires Valid()
      modifies this
      ensures Valid() && Repr <= old(Repr)
      ensures old(Contents) == [] ==> r == Err(Underflow) && Contents == old(Contents) && nodes == old(nodes) && Repr == old(Repr)
      ensures old(Contents) != [] ==> r == Ok(old(Contents)[0]) && Contents == old(Contents)[1..]
    {
      if top == null {
        return Err(Underflow);
      }
      var value := top.data;
      var _ := Pop();
      return Ok(value);
    }

    /** The top value; Underflow when empty (Stack.h:300-314). */
    function Top(): (r: Result<int>)
      requires Valid()
      reads this, Repr
      ensures Contents == [] ==> r == Err(Underflow)
      ensures Contents != [] ==> r == Ok(Contents[0])
    {
      if top == null then Err(Underflow) else Ok(top.data)
    }

    /** Whether the stack holds no value (Stack.h:318-320). */
    function Empty(): (b: bool)
      requires Valid()
      reads this, Repr
      ensures b <==> Contents == []
    {
      top == null
    }

    /** The number of values (Stack.h:324-326). */
    function Size(): (n: nat)
      requires Valid()
      reads this, Repr
      ensures n == |Contents|
    {
      size
    }

    /** Whether some node holds `value` (Stack.h:330-339). */
    method Contains(value: int) returns (found: bool)
      requires Valid()
      ensures found <==> value in Contents
    {
      var current := top;
      ghost var i := 0;
      while current != null
        invariant i <= |nodes| && current == if i < |nodes| then nodes[i] else null
        invariant value !in Contents[..i]
        decreases |nodes| - i
      {
        if current.data == value {
          return true;
        }
        assert Contents[..i + 1] == Contents[..i] + [Contents[i]];
        current := current.next;
        i := i + 1;
      }
      assert Contents[..i] == Contents;
      return false;
    }

    /** How many nodes hold `value` (Stack.h:343-353). */
    method Count(value: int) returns (n: nat)
      requires Valid()
      ensures n == multiset(Contents)[value]
    {
      n := 0;
      var current := top;
      ghost var i := 0;
      while current != null
        invariant i <= |nodes| && current == if i < |nodes| then nodes[i] else null
        invariant n == multiset(Contents[..i])[value]
        decreases |nodes| - i
      {
        assert Contents[..i + 1] == Contents[..i] + [Contents[i]];
        if current.data == value {
          n := n + 1;
        }
        current := current.next;
        i := i + 1;
      }
      assert Contents[..i] == Contents;
    }

    /** The value `index` places below the top; OutOfRange at or past the size (Stack.h:357-379). */
    method At(index: nat) returns (r: Result<int>)
      requires Valid()
      ensures index < |Contents| ==> r == Ok(Contents[index])
      ensures index >= |Contents| ==> r == Err(OutOfRange)
    {
      if index >= size {
        return Err(OutOfRange);
      }
      var current := top;
      var i := 0;
      while i < index
        invariant 0 <= i <= index && current == nodes[i]
      {
        current := current.next;
        i := i + 1;
      }
      return Ok(current.data);
    }

    /** Pops until the stack is empty (Stack.h:383-387). */
    method Clear()
      requires Valid()
      modifies this
      ensures Valid() && Contents == [] && Repr <= old(Repr)
    {
      while top != null
        invariant Valid() && Repr <= old(Repr)
        decreases |Contents|
      {
        var _ := Pop();
      }
    }

    /** Exchanges the two stacks' chains and sizes (Stack.h:391-394). */
    method Swap(other: Stack)
      requires Valid() && other.Valid()
      modifies this, other
      ensures Valid() && other.Valid()
      ensures Contents == old(other.Contents) && other.Contents == old(Contents)
      ensures nodes == old(other.nodes) && other.nodes == old(nodes)
    {
      if other != this {
        var t, n := top, size;
        ghost var ns, cs, rs := nodes, Contents, Repr;
        Take(other.top, other.size, other.nodes, other.Contents, other.Repr - {other} + {this});
        other.Take(t, n, ns, cs, rs - {this} + {other});
      }
    }

    /** Pops the top value and pushes it on `dst`, the step of every shuttle loop (Stack.h:404, 412, 429, 434). */
    method MoveTopTo(dst: Stack)
      requires Valid() && dst.Valid() && Repr !! dst.Repr && Contents != []
      modifies this, dst.Repr
      ensures Valid() && dst.Valid() && Repr !! dst.Repr && Repr <= old(Repr) && fresh(dst.Repr - old(dst.Repr))
      ensures Contents == old(Contents)[1..] && dst.Contents == [old(Contents)[0]] + old(dst.Contents)
    {
      var r := PopAndReturn();
      dst.Push(r.value);
    }

    /** Pops the top value of a stack kept apart from `other`, which stays as it is. */
    method DropTopBeside(other: Stack)
      requires Valid() && other.Valid() && Repr !! other.Repr && Contents != []
      modifies this
      ensures Valid() && other.Valid() && Repr !! other.Repr && Repr <= old(Repr)
      ensures Contents == old(Contents)[1..]
    {
      var _ := Pop();
    }

    /** Pops every value of `src`, which holds `want` reversed, onto this stack, which puts `want` back on top in order (Stack.h:411-413, 433-435). */
    method RestoreFrom(src: Stack, ghost want: seq<int>)
      requires Valid() && src.Valid() && Repr !! src.Repr && IsReversal(src.Contents, want)
      modifies Repr, src
      ensures Valid() && src.Valid() && Repr !! src.Repr && fresh(Repr - old(Repr)) && src.Repr <= old(src.Repr)
      ensures Contents == want + old(Contents) && src.Contents == []
    {
      ghost var s, n, base := src.Contents, |want|, Contents;
      ghost var m: nat := n;
      while src.top != null
        invariant Valid() && src.Valid() && Repr !! src.Repr && fresh(Repr - old(Repr)) && src.Repr <= old(src.Repr)
        invariant m <= n && src.Contents == s[n - m..] && Contents == want[m..] + base
        decreases m
      {
        RestoreStep(src, want, s, m, base);
        m := m - 1;
      }
      assert want[0..] == want;
    }

    /** One step of `RestoreFrom`: the top of `src`, `want[m - 1]`, is moved onto this stack. */
    method RestoreStep(src: Stack, ghost want: seq<int>, ghost s: seq<int>, ghost m: nat, ghost base: seq<int>)
      requires Valid() && src.Valid() && Repr !! src.Repr && IsReversal(s, want)
      requires 0 < m <= |want| && src.Contents == s[|want| - m..] && Contents == want[m..] + base
      modifies Repr, src
      ensures Valid() && src.Valid() && Repr !! src.Repr && fresh(Repr - old(Repr)) && src.Repr <= old(src.Repr)
      ensures src.Contents == s[|want| - m + 1..] && Contents == want[m - 1..] + base
    {
      assert s[|want| - m + 1..] == src.Contents[1..];
      PrependSlice(want, m, base);
      src.MoveTopTo(this);
    }

    /** Pops every value, pushing those other than `value` on `temp` and counting the rest (Stack.h:402-409). */
    method DrainExcept(temp: Stack, value: int) returns (removed: nat)
      requires Valid() && temp.Valid() && Repr !! temp.Repr && temp.Contents == []
      modifies this, temp.Repr
      ensures Valid() && temp.Valid() && Repr !! temp.Repr && Repr <= old(Repr) && fresh(temp.Repr - old(temp.Repr))
      ensures Contents == [] && IsReversal(temp.Contents, Filter(old(Contents), Negate(EqualTo(value))))
      ensures removed + |temp.Contents| == |old(Contents)|
    {
      ghost var c := Contents;
      ghost var i := 0;
      removed := 0;
      while top != null
        invariant Valid() && temp.Valid() && Repr !! temp.Repr && Repr <= old(Repr) && fresh(temp.Repr - old(temp.Repr))
        invariant i <= |c| && Contents == c[i..]
        invariant IsReversal(temp.Contents, Filter(c[..i], Negate(EqualTo(value))))
        invariant removed + |temp.Contents| == i
        decreases |Contents|
      {
        ghost var r := temp.Repr;
        removed := ExceptStep(temp, value, removed, c, i);
        assert fresh(temp.Repr - r);
        i := i + 1;
      }
      assert c[..i] == c;
    }

    /** One step of `DrainExcept`: the top value `c[i]` is counted and dropped if it is `value`, pushed on `temp` otherwise. */
    method ExceptStep(temp: Stack, value: int, removed: nat, ghost c: seq<int>, ghost i: nat) returns (removed': nat)
      requires Valid() && temp.Valid() && Repr !! temp.Repr
      requires i < |c| && Contents == c[i..]
      requires IsReversal(temp.Contents, Filter(c[..i], Negate(EqualTo(value)))) && removed + |temp.Contents| == i
      modifies this, temp.Repr
      ensures Valid() && temp.Valid() && Repr !! temp.Repr && Repr <= old(Repr) && fresh(temp.Repr - old(temp.Repr))
      ensures Contents == c[i + 1..]
      ensures IsReversal(temp.Contents, Filter(c[..i + 1], Negate(EqualTo(value)))) && removed' + |temp.Contents| == i + 1
    {
      KeptStep(temp.Contents, c, i, value);
      assert c[i + 1..] == Contents[1..];
      removed' := removed;
      if top.data != value {
        MoveTopTo(temp);
      } else {
        DropTopBeside(temp);
        removed' := removed + 1;
      }
    }

    /** Removes every `value`, keeping the other values in order, and returns how many went (Stack.h:398-416). */
    method RemoveAll(value: int) returns (removed: nat)
      requires Valid()
      modifies Repr
      ensures Valid() && fresh(Repr - old(Repr))
      ensures Contents == Filter(old(Contents), Negate(EqualTo(value)))
      ensures removed == multiset(old(Contents))[value]
    {
      ghost var kept := Filter(Contents, Negate(EqualTo(value)));
      FilterOutCount(Contents, value);
      var temp := new Stack();
      removed := DrainExcept(temp, value);
      RestoreFrom(temp, kept);
      assert Contents == kept + [];
    }

    /** Pops up to and including the topmost `value`, pushing the values above it on `temp` (Stack.h:424-431). */
    method DrainUntil(temp: Stack, value: int) returns (found: bool)
      requires Valid() && temp.Valid() && Repr !! temp.Repr && temp.Contents == []
      modifies this, temp.Repr
      ensures Valid() && temp.Valid() && Repr !! temp.Repr && Repr <= old(Repr) && fresh(temp.Repr - old(temp.Repr))
      ensures found == (value in old(Contents))
      ensures var k := |temp.Contents|;
        && k <= |old(Contents)| && IsReversal(temp.Contents, old(Contents)[..k]) && value !in old(Contents)[..k]
        && (found ==> k < |old(Contents)| && old(Contents)[k] == value && Contents == old(Contents)[k + 1..])
        && (!found ==> k == |old(Contents)| && Contents == [])
    {
      ghost var c := Contents;
      ghost var i := 0;
      found := false;
      assert c[..0] == [];
      while top != null && !found
        invariant Valid() && temp.Valid() && Repr !! temp.Repr && Repr <= old(Repr) && fresh(temp.Repr - old(temp.Repr))
        invariant i <= |c| && IsReversal(temp.Contents, c[..i]) && value !in c[..i]
        invariant !found ==> Contents == c[i..]
        invariant found ==> i < |c| && c[i] == value && Contents == c[i + 1..]
        decreases |Contents|
      {
        ghost var r := temp.Repr;
        found := UntilStep(temp, value, c, i);
        assert fresh(temp.Repr - r);
        if !found {
          i := i + 1;
        }
      }
      if !found {
        assert c[..i] == c;
      }
    }

    /** One step of `DrainUntil`: the top value `c[i]` is dropped if it is `value`, pushed on `temp` otherwise. */
    method UntilStep(temp: Stack, value: int, ghost c: seq<int>, ghost i: nat) returns (found: bool)
      requires Valid() && temp.Valid() && Repr !! temp.Repr
      requires i < |c| && Contents == c[i..] && IsReversal(temp.Contents, c[..i]) && value !in c[..i]
      modifies this, temp.Repr
      ensures Valid() && temp.Valid() && Repr !! temp.Repr && Repr <= old(Repr) && fresh(temp.Repr - old(temp.Repr))
      ensures Contents == c[i + 1..] && found == (c[i] == value)
      ensures found ==> IsReversal(temp.Contents, c[..i])
      ensures !found ==> IsReversal(temp.Contents, c[..i + 1]) && value !in c[..i + 1]
    {
      assert c[i + 1..] == Contents[1..];
      assert c[..i + 1] == c[..i] + [c[i]];
      IsReversalCons(temp.Contents, c[..i], c[i]);
      found := top.data == value;
      if found {
        DropTopBeside(temp);
      } else {
        MoveTopTo(temp);
      }
    }

    /** Removes the topmost `value` keeping the other values in order, and returns whether there was one (Stack.h:420-438). */
    method RemoveFirst(value: int) returns (found: bool)
      requires Valid()
      modifies Repr
      ensures Valid() && fresh(Repr - old(Repr))
      ensures found == (value in old(Contents))
      ensures Contents == RemoveFirstOf(old(Contents), value)
    {
      ghost var c := Contents;
      var temp := new Stack();
      found := DrainUntil(temp, value);
      ghost var k := |temp.Contents|;
      SplitAtFirst(c, value, k, found, Contents);
      RestoreFrom(temp, c[..k]);
    }

    /** Pushes a copy of the top value; Underflow when empty (Stack.h:442-447). */
    method Duplicate() returns (r: Result<()>)
      requires Valid()
      modifies Repr
      ensures Valid() && fresh(Repr - old(Repr))
      ensures old(Contents) == [] ==> r == Err(Underflow) && Contents == old(Contents) && nodes == old(nodes) && Repr == old(Repr)
      ensures old(Contents) != [] ==> r == Ok(()) && Contents == [old(Contents)[0]] + old(Contents)
    {
      if Empty() {
        return Err(Underflow);
      }
      Push(top.data);
      return Ok(());
    }

    /** Pops every value into a vector, top first (Stack.h:455-458). */
    method DrainAll() returns (v: seq<int>)
      requires Valid()
      modifies this
      ensures Valid() && Repr <= old(Repr) && Contents == [] && v == old(Contents)
    {
      ghost var c := Contents;
      v := [];
      while top != null
        invariant Valid() && Repr <= old(Repr)
        invariant |v| <= |c| && v == c[..|v|] && Contents == c[|v|..]
        decreases |Contents|
      {
        assert c[|v| + 1..] == Contents[1..];
        assert c[..|v| + 1] == v + [Contents[0]];
        var r := PopAndReturn();
        v := v + [r.value];
      }
      assert v == c;
    }

    /** Pushes the values of `v` first to last, so the last one ends on top (Stack.h:200-202, 459-461). */
    method PushEach(v: seq<int>)
      requires Valid()
      modifies Repr
      ensures Valid() && fresh(Repr - old(Repr))
      ensures Contents == Reversed(v) + old(Contents)
    {
      var i := 0;
      ghost var pushed: seq<int> := [];
      assert v[..0] == [];
      while i < |v|
        invariant 0 <= i <= |v| && Valid() && fresh(Repr - old(Repr))
        invariant Contents == pushed + old(Contents) && IsReversal(pushed, v[..i])
      {
        assert v[..i + 1] == v[..i] + [v[i]];
        IsReversalCons(pushed, v[..i], v[i]);
        ConcatAssoc([v[i]], pushed, old(Contents));
        Push(v[i]);
        pushed := [v[i]] + pushed;
        i := i + 1;
      }
      assert v[..i] == v;
      IsReversalReversed(pushed, v);
    }

    /** Reverses the order: stacks of fewer than two values stay, others are drained into a vector and pushed back in its order (Stack.h:451-462). */
    method Reverse()
      requires Valid()
      modifies Repr
      ensures Valid() && fresh(Repr - old(Repr))
      ensures Contents == Reversed(old(Contents))
    {
      if size <= 1 {
        assert Reversed(Contents) == Contents;
        return;
      }
      var temp := DrainAll();
      PushEach(temp);
    }

    /** The index from the top of the topmost node holding `value`, or -1 (Stack.h:466-477). */
    method FindFirst(value: int) returns (index: int)
      requires Valid()
      ensures index == -1 <==> value !in Contents
      ensures index != -1 ==> index == IndexOf(Contents, value)
    {
      var current := top;
      index := 0;
      while current != null
        invariant 0 <= index <= |nodes| && current == if index < |nodes| then nodes[index] else null
        invariant forall t :: 0 <= t < index ==> Contents[t] != value
        decreases |nodes| - index
      {
        if current.data == value {
          return index;
        }
        current := current.next;
        index := index + 1;
      }
      return -1;
    }

    /** The index from the top of the bottommost node holding `value`, or -1 (Stack.h:481-493). */
    method FindLast(value: int) returns (lastFound: int)
      requires Valid()
      ensures lastFound == -1 <==> value !in Contents
      ensures lastFound == LastIndexOf(Contents, value)
    {
      var current := top;
      var index := 0;
      lastFound := -1;
      while current != null
        invariant 0 <= index <= |nodes| && current == if index < |nodes| then nodes[index] else null
        invariant lastFound == LastIndexOf(Contents[..index], value)
        decreases |nodes| - index
      {
        assert Contents[..index + 1][..index] == Contents[..index];
        if current.data == value {
          lastFound := index;
        }
        current := current.next;
        index := index + 1;
      }
      assert Contents[..index] == Contents;
    }

    /** Stores `v` in `p`, the node at position `k`. */
    method SetData(p: Node, ghost k: nat, v: int)
      requires Valid() && k < |nodes| && nodes[k] == p
      modifies this`Contents, p`data
      ensures Valid() && nodes == old(nodes) && Repr == old(Repr)
      ensures Contents == old(Contents)[k := v]
    {
      p.data := v;
      Contents := Contents[k := v];
    }

    /** Applies `f` to every value in place, top first (Stack.h:497-503). */
    method ForEach(f: int -> int)
      requires Valid()
      modifies this`Contents, nodes
      ensures Valid() && nodes == old(nodes) && Repr == old(Repr)
      ensures Contents == MapSeq(old(Contents), f)
    {
      var current := top;
      ghost var i := 0;
      while current != null
        invariant Valid() && nodes == old(nodes) && Repr == old(Repr)
        invariant i <= |nodes| && current == if i < |nodes| then nodes[i] else null
        invariant |Contents| == |old(Contents)|
        invariant forall t :: 0 <= t < i ==> Contents[t] == f(old(Contents)[t])
        invariant forall t :: i <= t < |Contents| ==> Contents[t] == old(Contents)[t]
        decreases |nodes| - i
      {
        SetData(current, i, f(current.data));
        current := current.next;
        i := i + 1;
      }
    }

    /** Whether every value satisfies `pred` (Stack.h:517-526). */
    method AllOf(pred: int -> bool) returns (r: bool)
      requires Valid()
      ensures r <==> forall i :: 0 <= i < |Contents| ==> pred(Contents[i])
    {
      var current := top;
      ghost var i := 0;
      while current != null
        invariant i <= |nodes| && current == if i < |nodes| then nodes[i] else null
        invariant forall t :: 0 <= t < i ==> pred(Contents[t])
        decreases |nodes| - i
      {
        if !pred(current.data) {
          return false;
        }
        current := current.next;
        i := i + 1;
      }
      return true;
    }

    /** Whether some value satisfies `pred` (Stack.h:530-539). */
    method AnyOf(pred: int -> bool) returns (r: bool)
      requires Valid()
      ensures r <==> exists i :: 0 <= i < |Contents| && pred(Contents[i])
    {
      var current := top;
      ghost var i := 0;
      while current != null
        invariant i <= |nodes| && current == if i < |nodes| then nodes[i] else null
        invariant forall t :: 0 <= t < i ==> !pred(Contents[t])
        decreases |nodes| - i
      {
        if pred(current.data) {
          return true;
        }
        current := current.next;
        i := i + 1;
      }
      return false;
    }

    /** The values from top to bottom (Stack.h:543-552). */
    method ToVector() returns (v: seq<int>)
      requires Valid()
      ensures v == Contents
    {
      v := [];
      var current := top;
      while current != null
        invariant |v| <= |nodes| && current == if |v| < |nodes| then nodes[|v|] else null
        invariant v == Contents[..|v|]
        decreases |nodes| - |v|
      {
        v := v + [current.data];
        current := current.next;
      }
    }

    /** The values from bottom to top: `ToVector` reversed (Stack.h:556-560). */
    method ToVectorReversed() returns (v: seq<int>)
      requires Valid()
      ensures v == Reversed(Contents)
    {
      v := ToVector();
      v := Reversed(v);
    }

    /** Whether both stacks hold the same values in the same order (Stack.h:564-581). */
    method Equal(other: Stack) returns (r: bool)
      requires Valid() && other.Valid()
      ensures r == (Contents == other.Contents)
    {
      if size != other.size {
        return false;
      }
      var current1, current2 := top, other.top;
      ghost var i := 0;
      while current1 != null && current2 != null
        invariant i <= |nodes| == |other.nodes|
        invariant current1 == (if i < |nodes| then nodes[i] else null)
        invariant current2 == (if i < |other.nodes| then other.nodes[i] else null)
        invariant Contents[..i] == other.Contents[..i]
        decreases |nodes| - i
      {
        if current1.data != current2.data {
          return false;
        }
        assert Contents[..i + 1] == Contents[..i] + [Contents[i]];
        assert other.Contents[..i + 1] == other.Contents[..i] + [other.Contents[i]];
        current1, current2 := current1.next, current2.next;
        i := i + 1;
      }
      assert Contents[..i] == Contents && other.Contents[..i] == other.Contents;
      return current1 == null && current2 == null;
    }

    /** The negation of `Equal` (Stack.h:585-587). */
    method NotEqual(other: Stack) returns (r: bool)
      requires Valid() && other.Valid()
      ensures r == (Contents != other.Contents)
    {
      var eq := Equal(other);
      return !eq;
    }

    /** The structural self-check: the chain from the top has `size` nodes (Stack.h:612-620). */
    method CheckIntegrity() returns (ok: bool)
      requires Valid()
      ensures ok
    {
      var count := 0;
      var current := top;
      while current != null
        invariant count <= |nodes| && current == if count < |nodes| then nodes[count] else null
        decreases |nodes| - count
      {
        count := count + 1;
        current := current.next;
      }
      return count == size;
    }
  }
}
