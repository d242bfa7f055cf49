/**
 * The singly-linked FIFO `Queue<T>` of Queue.h with `T` fixed to `int`.
 *
 * A queue owns a chain of `Node`s linked by `next` from `front` (where
 * values leave) to `rear` (where they arrive) and counts them in `size`.
 * The ghost field `nodes` lists the nodes from front to rear and
 * `Contents` their values; `Repr` is the queue object together with its
 * nodes. The operations that rebuild the queue (`removeAll`,
 * `removeFirst`, `duplicate`) drain it into a temporary queue and refill it.
 */
module LinkedQueue {
  import opened Wrappers
  import opened Sequences

  /** A queue node: its value and the link towards the rear (Queue.h:14-25). */
  class Node {
    var data: int
    var next: Node?

    constructor (value: int)
      ensures data == value && next == null
    {
      data := value;
      next := null;
    }
  }

  /** The values `s` holds after dropping its first `v` and moving the values before it behind the rest. */
  function RotatedRemoval(s: seq<int>, v: int): seq<int>
  {
    var k := IndexOf(s, v);
    if k < |s| then s[k + 1..] + s[..k] else s
  }

  /** The rotation keeps the same values as `RemoveFirstOf`, so it too takes away exactly one `v`, and nothing when there is none. */
  lemma RotatedRemovalCounts(s: seq<int>, v: int)
    ensures multiset(RotatedRemoval(s, v)) == multiset(RemoveFirstOf(s, v))
    ensures v in s ==> multiset(RotatedRemoval(s, v)) == multiset(s) - multiset{v}
    ensures v !in s ==> RotatedRemoval(s, v) == s
  {
    RemoveFirstOfCounts(s, v);
    var k := IndexOf(s, v);
    if k < |s| {
      RotatedSameValues(s, v, k);
    }
  }

  /** Moving the part before the first `v` behind the rest does not change the values kept. */
  lemma RotatedSameValues(s: seq<int>, v: int, k: nat)
    requires k == IndexOf(s, v) && k < |s|
    ensures multiset(RotatedRemoval(s, v)) == multiset(RemoveFirstOf(s, v))
  {
    RemoveFirstOfCut(s, v);
    var p, q := s[..k], s[k + 1..];
    assert RotatedRemoval(s, v) == q + p;
    assert multiset(q + p) == multiset(q) + multiset(p) == multiset(p + q);
  }

  /** With no `v` before index `k` and a `v` at `k`, the rotation moves `s[..k]` behind `s[k + 1..]`. */
  lemma RotatedRemovalAt(s: seq<int>, v: int, k: nat)
    requires k < |s| && s[k] == v && v !in s[..k]
    ensures RotatedRemoval(s, v) == s[k + 1..] + s[..k]
  {
    assert forall j :: 0 <= j < k ==> s[..k][j] == s[j];
    assert IndexOf(s, v) == k;
  }

  /** What `DrainUntil` leaves, its untouched rest followed by the values drained before the match, is the rotation. */
  lemma RotatedAtFirst(c: seq<int>, v: int, k: nat, found: bool, rest: seq<int>)
    requires k <= |c| && v !in c[..k]
    requires found ==> k < |c| && c[k] == v && rest == c[k + 1..]
    requires !found ==> k == |c| && rest == []
    ensures rest + c[..k] == RotatedRemoval(c, v)
  {
    if found {
      RotatedRemovalAt(c, v, k);
    } else {
      assert c[..k] == c;
      RemoveFirstOfCounts(c, v);
    }
  }

  /** The rotation differs from removing in place: from [1, 2, 3], removing 2 leaves [3, 1], not [1, 3]. */
  lemma RotatedRemovalCounterexample()
    ensures RotatedRemoval([1, 2, 3], 2) == [3, 1]
    ensures RemoveFirstOf([1, 2, 3], 2) == [1, 3]
  {
    var s := [1, 2, 3];
    assert s[0] != 2 && s[1] == 2;
    assert IndexOf(s, 2) == 1;
    assert s[1..][0] == 2;
    assert s[2..] + s[..1] == [3, 1];
    assert s[..1] + s[2..] == [1, 3];
  }

  class Queue {
    var front: Node?
    var rear: Node?
    var size: nat

    ghost var nodes: seq<Node>
    ghost var Contents: seq<int>
    ghost var Repr: set<object>

    /** The link structure: front to rear through `next`, with the rear last (what Queue.h:667-687 checks). */
    ghost predicate Valid()
      reads this, Repr
      ensures Valid() ==> this in Repr
    {
      && this in Repr
      && (forall i :: 0 <= i < |nodes| ==> nodes[i] in Repr)
      && size == |nodes|
      && (forall i, j :: 0 <= i < j < |nodes| ==> nodes[i] != nodes[j])
      && (if nodes == [] then front == null && rear == null
          else front == nodes[0] && rear == nodes[|nodes| - 1] && rear.next == null)
      && |Contents| == |nodes|
      && (forall i :: 0 <= i < |nodes| ==> nodes[i].data == Contents[i])
      && (forall i {:trigger nodes[i].next} :: 0 <= i < |nodes| - 1 ==> nodes[i].next == nodes[i + 1])
    }

    /** An empty queue (Queue.h:188-189). */
    constructor ()
      ensures Valid() && fresh(Repr) && Contents == []
    {
      front, rear, size := null, null, 0;
      nodes, Contents := [], [];
      Repr := {this};
    }

    /** A queue of the values of `init`, enqueued front first (Queue.h:207-212). */
    constructor FromSeq(init: seq<int>)
      ensures Valid() && fresh(Repr) && Contents == init
    {
      front, rear, size := null, null, 0;
      nodes, Contents := [], [];
      Repr := {this};
      new;
      var i := 0;
      while i < |init|
        invariant i <= |init| && Valid() && fresh(Repr) && Contents == init[..i]
      {
        assert init[..i + 1] == init[..i] + [init[i]];
        Enqueue(init[i]);
        i := i + 1;
      }
      assert init[..i] == init;
    }

    /** Makes this queue the chain `ns` from `f` to `r`. */
    method Take(f: Node?, r: Node?, n: nat, ghost ns: seq<Node>, ghost cs: seq<int>, ghost rs: set<object>)
      requires this in rs && n == |ns| && (forall i :: 0 <= i < |ns| ==> ns[i] in rs)
      requires forall i, j :: 0 <= i < j < |ns| ==> ns[i] != ns[j]
      requires if ns == [] then f == null && r == null else f == ns[0] && r == ns[|ns| - 1] && r.next == null
      requires |cs| == |ns| && forall i :: 0 <= i < |ns| ==> ns[i].data == cs[i]
      requires forall i {:trigger ns[i].next} :: 0 <= i < |ns| - 1 ==> ns[i].next == ns[i + 1]
      modifies this
      ensures Valid() && front == f && rear == r && nodes == ns && Contents == cs && Repr == rs
    {
      front, rear, size, nodes, Contents, Repr := f, r, n, ns, cs, rs;
    }

    /** Enqueues each of `other`'s values in turn (Queue.h:226-230). */
    method AppendCopies(other: Queue)
      requires Valid() && other.Valid() && Repr !! other.Repr
      modifies Repr
      ensures Valid() && fresh(Repr - old(Repr)) && Repr !! other.Repr
      ensures Contents == old(Contents) + other.Contents
    {
      var current := other.front;
      ghost var i := 0;
      while current != null
        invariant Valid() && Repr !! other.Repr && fresh(Repr - old(Repr))
        invariant i <= |other.nodes| && current == if i < |other.nodes| then other.nodes[i] else null
        invariant Contents == old(Contents) + other.Contents[..i]
        decreases |other.nodes| - i
      {
        assert other.Contents[..i + 1] == other.Contents[..i] + [current.data];
        Enqueue(current.data);
        current := current.next;
        i := i + 1;
      }
      assert other.Contents[..i] == other.Contents;
    }

    /** Copy assignment: unless `other` is this queue, clear and enqueue each of `other`'s values (Queue.h:222-233). */
    method Assign(other: Queue)
      requires Valid() && other.Valid() && (other == this || Repr !! other.Repr)
      modifies Repr
      ensures Valid() && fresh(Repr - old(Repr))
      ensures Contents == old(other.Contents)
      ensures other != this ==> other.Valid() && Repr !! other.Repr
    {
      if other != this {
        Clear();
        AppendCopies(other);
      }
    }

    /** Copy construction: an empty queue copy-assigned from `other` (Queue.h:192-195). */
    constructor Copy(other: Queue)
      requires other.Valid()
      ensures Valid() && fresh(Repr) && Contents == other.Contents
    {
      front, rear, size := null, null, 0;
      nodes, Contents := [], [];
      Repr := {this};
      new;
      Assign(other);
    }

    /** Move assignment: unless `other` is this queue, clear, take over `other`'s nodes and leave it empty (Queue.h:236-248). */
    method MoveAssign(other: Queue)
      requires Valid() && other.Valid() && (other == this || Repr !! other.Repr)
      modifies Repr, other
      ensures Valid() && other.Valid()
      ensures other != this ==> nodes == old(other.nodes) && Contents == old(other.Contents)
      ensures other != this ==> other.Contents == [] && Repr !! other.Repr
      ensures other == this ==> Contents == old(Contents)
    {
      if other != this {
        Clear();
        Take(other.front, other.rear, other.size, other.nodes, other.Contents, Repr + (other.Repr - {other}));
        other.Take(null, null, 0, [], [], {other});
      }
    }

    /** Move construction: take over `other`'s nodes, leaving it empty (Queue.h:198-204). */
    constructor Move(other: Queue)
      requires other.Valid()
      modifies other
      ensures Valid() && other.Valid() && Repr !! other.Repr
      ensures nodes == old(other.nodes) && Contents == old(other.Contents) && other.Contents == []
    {
      front, rear, size := null, null, 0;
      nodes, Contents := [], [];
      Repr := {this};
      new;
      Take(other.front, other.rear, other.size, other.nodes, other.Contents, other.Repr - {other} + {this});
      other.Take(null, null, 0, [], [], {other});
    }

    /** Appends `value` at the rear (Queue.h:251-262). */
    method Enqueue(value: int)
      requires Valid()
      modifies Repr
      ensures Valid() && fresh(Repr - old(Repr))
      ensures Contents == old(Contents) + [value]
      ensures |nodes| == |old(nodes)| + 1 && nodes[..|old(nodes)|] == old(nodes)
    {
      var n := new Node(value);
      if front == null {
        front, rear := n, n;
      } else {
        rear.next := n;
        rear := n;
      }
      size := size + 1;
      nodes, Contents, Repr := nodes + [n], Contents + [value], Repr + {n};
    }

    /** Drops the front value, resetting the rear when the queue empties; Underflow when empty (Queue.h:295-310). */
    method Dequeue() returns (r: Result<()>)
      requires Valid()
      modifies this
      ensures Valid() && Repr <= old(Repr)
      ensures old(Contents) == [] ==> r == Err(Underflow) && Contents == old(Contents) && nodes == old(nodes) && Repr == old(Repr)
      ensures old(Contents) != [] ==> r == Ok(()) && Contents == old(Contents)[1..] && nodes == old(nodes)[1..]
    {
      if front == null {
        return Err(Underflow);
      }
      var old_front := front;
      front := front.next;
      if front == null {
        rear := null;
      }
      size := size - 1;
      nodes, Contents, Repr := nodes[1..], Contents[1..], Repr - {old_front};
      return Ok(());
    }

    /** Removes and returns the front value; Underflow when empty (Queue.h:313-321). */
    method DequeueAndReturn() returns (r: Result<int>)
      requires Valid()
      modifies this
      ensures Valid() && Repr <= old(Repr)
      ensures old(Contents) == [] ==> r == Err(Underflow) && Contents == old(Contents) && nodes == old(nodes) && Repr == old(Repr)
      ensures old(Contents) != [] ==> r == Ok(old(Contents)[0]) && Contents == old(Contents)[1..]
    {
      if front == null {
        return Err(Underflow);
      }
      var value := front.data;
      var _ := Dequeue();
      return Ok(value);
    }

    /** The front value; Underflow when empty (Queue.h:324-339). */
    function Front(): (r: Result<int>)
      requires Valid()
      reads this, Repr
      ensures Contents == [] ==> r == Err(Underflow)
      ensures Contents != [] ==> r == Ok(Contents[0])
    {
      if front == null then Err(Underflow) else Ok(front.data)
    }

    /** The rear value; Underflow when empty (Queue.h:342-357). */
    function Rear(): (r: Result<int>)
      requires Valid()
      reads this, Repr
      ensures Contents == [] ==> r == Err(Underflow)
      ensures Contents != [] ==> r == Ok(Contents[|Contents| - 1])
    {
      if front == null then Err(Underflow) else Ok(rear.data)
    }

    /** Whether the queue holds no value (Queue.h:360-363). */
    function Empty(): (b: bool)
      requires Valid()
      reads this, Repr
      ensures b <==> Contents == []
    {
      front == null
    }

    /** The number of values (Queue.h:366-369). */
    function Size(): (n: nat)
      requires Valid()
      reads this, Repr
      ensures n == |Contents|
    {
      size
    }

    /** Whether some node holds `value` (Queue.h:372-382). */
    method Contains(value: int) returns (found: bool)
      requires Valid()
      ensures found <==> value in Contents
    {
      var current := front;
      ghost var i := 0;
      while current != null
        invariant i <= |nodes| && current == if i < |nodes| then nodes[i] else null
        invariant value !in Contents[..i]
        decreases |nodes| - i
      {
        if current.data == value {
          return true;
        }
        assert Contents[..i + 1] == Contents[..i] + [Contents[i]];
        current := current.next;
        i := i + 1;
      }
      assert Contents[..i] == Contents;
      return false;
    }

    /** How many nodes hold `value` (Queue.h:385-396). */
    method Count(value: int) returns (n: nat)
      requires Valid()
      ensures n == multiset(Contents)[value]
    {
      n := 0;
      var current := front;
      ghost var i := 0;
      while current != null
        invariant i <= |nodes| && current == if i < |nodes| then nodes[i] else null
        invariant n == multiset(Contents[..i])[value]
        decreases |nodes| - i
      {
        assert Contents[..i + 1] == Contents[..i] + [Contents[i]];
        if current.data == value {
          n := n + 1;
        }
        current := current.next;
        i := i + 1;
      }
      assert Contents[..i] == Contents;
    }

    /** The value `index` places behind the front; OutOfRange at or past the size (Queue.h:399-422). */
    method At(index: nat) returns (r: Result<int>)
      requires Valid()
      ensures index < |Contents| ==> r == Ok(Contents[index])
      ensures index >= |Contents| ==> r == Err(OutOfRange)
    {
      if index >= size {
        return Err(OutOfRange);
      }
      var current := front;
      var i := 0;
      while i < index
        invariant 0 <= i <= index && current == nodes[i]
      {
        current := current.next;
        i := i + 1;
      }
      return Ok(current.data);
    }

    /** Dequeues until the queue is empty (Queue.h:425-430). */
    method Clear()
      requires Valid()
      modifies this
      ensures Valid() && Contents == [] && Repr <= old(Repr)
    {
      while front != null
        invariant Valid() && Repr <= old(Repr)
        decreases |Contents|
      {
        var _ := Dequeue();
      }
    }

    /** Exchanges the two queues' chains and sizes (Queue.h:433-438). */
    method Swap(other: Queue)
      requires Valid() && other.Valid()
      modifies this, other
      ensures Valid() && other.Valid()
      ensures Contents == old(other.Contents) && other.Contents == old(Contents)
      ensures nodes == old(other.nodes) && other.nodes == old(nodes)
    {
      if other != this {
        var f, r, n := front, rear, size;
        ghost var ns, cs, rs := nodes, Contents, Repr;
        Take(other.front, other.rear, other.size, other.nodes, other.Contents, other.Repr - {other} + {this});
        other.Take(f, r, n, ns, cs, rs - {this} + {other});
      }
    }

    /** Dequeues the front value and enqueues it on `dst`, the step of every drain loop (Queue.h:448, 473, 495). */
    method MoveFrontTo(dst: Queue)
      requires Valid() && dst.Valid() && Repr !! dst.Repr && Contents != []
      modifies this, dst.Repr
      ensures Valid() && dst.Valid() && Repr !! dst.Repr && Repr <= old(Repr) && fresh(dst.Repr - old(dst.Repr))
      ensures Contents == old(Contents)[1..] && dst.Contents == old(dst.Contents) + [old(Contents)[0]]
    {
      var r := DequeueAndReturn();
      dst.Enqueue(r.value);
    }

    /** Drops the front value of a queue kept apart from `other`, which stays as it is. */
    method DropFrontBeside(other: Queue)
      requires Valid() && other.Valid() && Repr !! other.Repr && Contents != []
      modifies this
      ensures Valid() && other.Valid() && Repr !! other.Repr && Repr <= old(Repr)
      ensures Contents == old(Contents)[1..]
    {
      var _ := Dequeue();
    }

    /** Moves every value of `src`, front first, to the rear of this queue, leaving `src` empty (Queue.h:455-457, 477-479, 494-496, 499-501). */
    method TransferFrom(src: Queue)
      requires Valid() && src.Valid() && Repr !! src.Repr
      modifies Repr, src
      ensures Valid() && src.Valid() && Repr !! src.Repr && fresh(Repr - old(Repr)) && src.Repr <= old(src.Repr)
      ensures Contents == old(Contents) + old(src.Contents) && src.Contents == []
    {
      ghost var j := 0;
      while src.front != null
        invariant Valid() && src.Valid() && Repr !! src.Repr && fresh(Repr - old(Repr)) && src.Repr <= old(src.Repr)
        invariant j <= |old(src.Contents)| && src.Contents == old(src.Contents)[j..]
        invariant Contents == old(Contents) + old(src.Contents)[..j]
        decreases |src.Contents|
      {
        assert old(src.Contents)[..j + 1] == old(src.Contents)[..j] + [src.Contents[0]];
        assert old(src.Contents)[j + 1..] == src.Contents[1..];
        src.MoveFrontTo(this);
        j := j + 1;
      }
      assert old(src.Contents)[..j] == old(src.Contents);
    }

    /** Dequeues every value, moving those other than `value` to `temp` and counting the rest (Queue.h:446-453). */
    method DrainExcept(temp: Queue, value: int) returns (removed: nat)
      requires Valid() && temp.Valid() && Repr !! temp.Repr && temp.Contents == []
      modifies this, temp.Repr
      ensures Valid() && temp.Valid() && Repr !! temp.Repr && Repr <= old(Repr) && fresh(temp.Repr - old(temp.Repr))
      ensures Contents == [] && temp.Contents == Filter(old(Contents), Negate(EqualTo(value)))
      ensures removed + |temp.Contents| == |old(Contents)|
    {
      ghost var c := Contents;
      ghost var i := 0;
      removed := 0;
      while front != null
        invariant Valid() && temp.Valid() && Repr !! temp.Repr && Repr <= old(Repr) && fresh(temp.Repr - old(temp.Repr))
        invariant i <= |c| && Contents == c[i..]
        invariant temp.Contents == Filter(c[..i], Negate(EqualTo(value)))
        invariant removed + |temp.Contents| == i
        decreases |Contents|
      {
        ghost var r := temp.Repr;
        removed := ExceptStep(temp, value, removed, c, i);
        assert fresh(temp.Repr - r);
        i := i + 1;
      }
      assert c[..i] == c;
    }

    /** One step of `DrainExcept`: the front value `c[i]` is counted and dropped if it is `value`, moved to `temp` otherwise. */
    method ExceptStep(temp: Queue, value: int, removed: nat, ghost c: seq<int>, ghost i: nat) returns (removed': nat)
      requires Valid() && temp.Valid() && Repr !! temp.Repr
      requires i < |c| && Contents == c[i..]
      requires temp.Contents == Filter(c[..i], Negate(EqualTo(value))) && removed + |temp.Contents| == i
      modifies this, temp.Repr
      ensures Valid() && temp.Valid() && Repr !! temp.Repr && Repr <= old(Repr) && fresh(temp.Repr - old(temp.Repr))
      ensures Contents == c[i + 1..]
      ensures temp.Contents == Filter(c[..i + 1], Negate(EqualTo(value))) && removed' + |temp.Contents| == i + 1
    {
      FilterStep(c, i, Negate(EqualTo(value)));
      assert c[i + 1..] == Contents[1..];
      removed' := removed;
      if front.data != value {
        MoveFrontTo(temp);
      } else {
        DropFrontBeside(temp);
        removed' := removed + 1;
      }
    }

    /** Removes every `value`, keeping the other values in order, and returns how many went (Queue.h:441-460). */
    method RemoveAll(value: int) returns (removed: nat)
      requires Valid()
      modifies Repr
      ensures Valid() && fresh(Repr - old(Repr))
      ensures Contents == Filter(old(Contents), Negate(EqualTo(value)))
      ensures removed == multiset(old(Contents))[value]
    {
      FilterOutCount(Contents, value);
      var temp := new Queue();
      removed := DrainExcept(temp, value);
      TransferFrom(temp);
    }

    /** Dequeues up to and including the first `value`, moving the values before it to `temp` (Queue.h:467-475). */
    method DrainUntil(temp: Queue, value: int) returns (found: bool)
      requires Valid() && temp.Valid() && Repr !! temp.Repr && temp.Contents == []
      modifies this, temp.Repr
      ensures Valid() && temp.Valid() && Repr !! temp.Repr && Repr <= old(Repr) && fresh(temp.Repr - old(temp.Repr))
      ensures found == (value in old(Contents))
      ensures var k := |temp.Contents|;
        && k <= |old(Contents)| && temp.Contents == old(Contents)[..k] && value !in temp.Contents
        && (found ==> k < |old(Contents)| && old(Contents)[k] == value && Contents == old(Contents)[k + 1..])
        && (!found ==> k == |old(Contents)| && Contents == [])
    {
      ghost var c := Contents;
      ghost var i := 0;
      found := false;
      while front != null && !found
        invariant Valid() && temp.Valid() && Repr !! temp.Repr && Repr <= old(Repr) && fresh(temp.Repr - old(temp.Repr))
        invariant i <= |c| && temp.Contents == c[..i] && value !in c[..i]
        invariant !found ==> Contents == c[i..]
        invariant found ==> i < |c| && c[i] == value && Contents == c[i + 1..]
        decreases |Contents|
      {
        ghost var r := temp.Repr;
        found := UntilStep(temp, value, c, i);
        assert fresh(temp.Repr - r);
        if !found {
          i := i + 1;
        }
      }
      if !found {
        assert c[..i] == c;
      }
    }

    /** One step of `DrainUntil`: the front value `c[i]` is dropped if it is `value`, moved to `temp` otherwise. */
    method UntilStep(temp: Queue, value: int, ghost c: seq<int>, ghost i: nat) returns (found: bool)
      requires Valid() && temp.Valid() && Repr !! temp.Repr
      requires i < |c| && Contents == c[i..] && temp.Contents == c[..i] && value !in c[..i]
      modifies this, temp.Repr
      ensures Valid() && temp.Valid() && Repr !! temp.Repr && Repr <= old(Repr) && fresh(temp.Repr - old(temp.Repr))
      ensures Contents == c[i + 1..] && found == (c[i] == value)
      ensures found ==> temp.Contents == c[..i]
      ensures !found ==> temp.Contents == c[..i + 1] && value !in c[..i + 1]
    {
      assert c[i + 1..] == Contents[1..];
      assert c[..i + 1] == c[..i] + [c[i]];
      found := front.data == value;
      if found {
        DropFrontBeside(temp);
      } else {
        MoveFrontTo(temp);
      }
    }

    /**
     * Removal of the first `value` as Queue.h:463-482 writes it: the values
     * before the match wait in a temporary queue and are enqueued again
     * behind the rest, so they end up at the rear.
     */
    method RemoveFirstAsWritten(value: int) returns (found: bool)
      requires Valid()
      modifies Repr
      ensures Valid() && fresh(Repr - old(Repr))
      ensures found == (value in old(Contents))
      ensures Contents == RotatedRemoval(old(Contents), value)
    {
      ghost var c := Contents;
      var temp := new Queue();
      found := DrainUntil(temp, value);
      RotatedAtFirst(c, value, |temp.Contents|, found, Contents);
      TransferFrom(temp);
    }

    /** Dequeues every value, moving all but the first `value` to `temp` (the scan of Queue.h:467-475 carried to the end). */
    method DrainSkipFirst(temp: Queue, value: int) returns (found: bool)
      requires Valid() && temp.Valid() && Repr !! temp.Repr && temp.Contents == []
      modifies this, temp.Repr
      ensures Valid() && temp.Valid() && Repr !! temp.Repr && Repr <= old(Repr) && fresh(temp.Repr - old(temp.Repr))
      ensures found == (value in old(Contents))
      ensures Contents == [] && temp.Contents == RemoveFirstOf(old(Contents), value)
    {
      ghost var c := Contents;
      ghost var i := 0;
      found := false;
      assert c[..0] == [];
      while front != null
        invariant Valid() && temp.Valid() && Repr !! temp.Repr && Repr <= old(Repr) && fresh(temp.Repr - old(temp.Repr))
        invariant i <= |c| && Contents == c[i..]
        invariant found == (value in c[..i]) && temp.Contents == RemoveFirstOf(c[..i], value)
        decreases |Contents|
      {
        ghost var r := temp.Repr;
        found := SkipFirstStep(temp, value, found, c, i);
        assert fresh(temp.Repr - r);
        i := i + 1;
      }
      assert c[..i] == c;
    }

    /** One step of `DrainSkipFirst`: the front value `c[i]` is dropped if it is the first `value`, moved to `temp` otherwise. */
    method SkipFirstStep(temp: Queue, value: int, found: bool, ghost c: seq<int>, ghost i: nat) returns (found': bool)
      requires Valid() && temp.Valid() && Repr !! temp.Repr
      requires i < |c| && Contents == c[i..]
      requires found == (value in c[..i]) && temp.Contents == RemoveFirstOf(c[..i], value)
      modifies this, temp.Repr
      ensures Valid() && temp.Valid() && Repr !! temp.Repr && Repr <= old(Repr) && fresh(temp.Repr - old(temp.Repr))
      ensures Contents == c[i + 1..]
      ensures found' == (value in c[..i + 1]) && temp.Contents == RemoveFirstOf(c[..i + 1], value)
    {
      assert c[i + 1..] == Contents[1..];
      RemoveFirstOfStep(c, i, value);
      found' := found;
      if !found && front.data == value {
        DropFrontBeside(temp);
        found' := true;
      } else {
        MoveFrontTo(temp);
      }
    }

    /** Removes the first `value` keeping the other values in order, and returns whether there was one; corrects `RemoveFirstAsWritten`. */
    method RemoveFirst(value: int) returns (found: bool)
      requires Valid()
      modifies Repr
      ensures Valid() && fresh(Repr - old(Repr))
      ensures found == (value in old(Contents))
      ensures Contents == RemoveFirstOf(old(Contents), value)
    {
      var temp := new Queue();
      found := DrainSkipFirst(temp, value);
      TransferFrom(temp);
    }

    /** Puts a second copy of the front value in front; Underflow when empty (Queue.h:485-502). */
    method Duplicate() returns (r: Result<()>)
      requires Valid()
      modifies Repr
      ensures Valid() && fresh(Repr - old(Repr))
      ensures old(Contents) == [] ==> r == Err(Underflow) && Contents == old(Contents) && nodes == old(nodes) && Repr == old(Repr)
      ensures old(Contents) != [] ==> r == Ok(()) && Contents == [old(Contents)[0]] + old(Contents)
    {
      if Empty() {
        return Err(Underflow);
      }
      var value := front.data;
      var temp := new Queue();
      temp.TransferFrom(this);
      Enqueue(value);
      TransferFrom(temp);
      return Ok(());
    }

    /** Dequeues every value into a vector, front first (Queue.h:510-513). */
    method DrainAll() returns (v: seq<int>)
      requires Valid()
      modifies this
      ensures Valid() && Repr <= old(Repr) && Contents == [] && v == old(Contents)
    {
      ghost var c := Contents;
      v := [];
      while front != null
        invariant Valid() && Repr <= old(Repr)
        invariant |v| <= |c| && v == c[..|v|] && Contents == c[|v|..]
        decreases |Contents|
      {
        assert c[|v| + 1..] == Contents[1..];
        assert c[..|v| + 1] == v + [Contents[0]];
        var r := DequeueAndReturn();
        v := v + [r.value];
      }
      assert v == c;
    }

    /** Enqueues the values of `v` from the last to the first (Queue.h:514-516). */
    method EnqueueReversed(v: seq<int>)
      requires Valid()
      modifies Repr
      ensures Valid() && fresh(Repr - old(Repr))
      ensures Contents == old(Contents) + Reversed(v)
    {
      var i := |v|;
      assert v[i..] == [];
      while i > 0
        invariant 0 <= i <= |v| && Valid() && fresh(Repr - old(Repr))
        invariant Contents == old(Contents) + Reversed(v[i..])
      {
        assert v[i - 1..][1..] == v[i..];
        ConcatAssoc(old(Contents), Reversed(v[i..]), [v[i - 1]]);
        Enqueue(v[i - 1]);
        i := i - 1;
      }
      assert v[0..] == v;
    }

    /** Reverses the order: queues of fewer than two values stay, others are drained and refilled backwards (Queue.h:505-517). */
    method Reverse()
      requires Valid()
      modifies Repr
      ensures Valid() && fresh(Repr - old(Repr))
      ensures Contents == Reversed(old(Contents))
    {
      if size <= 1 {
        assert Reversed(Contents) == Contents;
        return;
      }
      var temp := DrainAll();
      EnqueueReversed(temp);
    }

    /** The index of the first node holding `value`, or -1 (Queue.h:520-532). */
    method FindFirst(value: int) returns (index: int)
      requires Valid()
      ensures index == -1 <==> value !in Contents
      ensures index != -1 ==> index == IndexOf(Contents, value)
    {
      var current := front;
      index := 0;
      while current != null
        invariant 0 <= index <= |nodes| && current == if index < |nodes| then nodes[index] else null
        invariant forall t :: 0 <= t < index ==> Contents[t] != value
        decreases |nodes| - index
      {
        if current.data == value {
          return index;
        }
        current := current.next;
        index := index + 1;
      }
      return -1;
    }

    /** The index of the last node holding `value`, or -1, found by a scan from the front (Queue.h:535-548). */
    method FindLast(value: int) returns (lastFound: int)
      requires Valid()
      ensures lastFound == -1 <==> value !in Contents
      ensures lastFound == LastIndexOf(Contents, value)
    {
      var current := front;
      var index := 0;
      lastFound := -1;
      while current != null
        invariant 0 <= index <= |nodes| && current == if index < |nodes| then nodes[index] else null
        invariant lastFound == LastIndexOf(Contents[..index], value)
        decreases |nodes| - index
      {
        assert Contents[..index + 1][..index] == Contents[..index];
        if current.data == value {
          lastFound := index;
        }
        current := current.next;
        index := index + 1;
      }
      assert Contents[..index] == Contents;
    }

    /** Stores `v` in `p`, the node at position `k`. */
    method SetData(p: Node, ghost k: nat, v: int)
      requires Valid() && k < |nodes| && nodes[k] == p
      modifies this`Contents, p`data
      ensures Valid() && nodes == old(nodes) && Repr == old(Repr)
      ensures Contents == old(Contents)[k := v]
    {
      p.data := v;
      Contents := Contents[k := v];
    }

    /** Applies `f` to every value in place, front first (Queue.h:551-558). */
    method ForEach(f: int -> int)
      requires Valid()
      modifies this`Contents, nodes
      ensures Valid() && nodes == old(nodes) && Repr == old(Repr)
      ensures Contents == MapSeq(old(Contents), f)
    {
      var current := front;
      ghost var i := 0;
      while current != null
        invariant Valid() && nodes == old(nodes) && Repr == old(Repr)
        invariant i <= |nodes| && current == if i < |nodes| then nodes[i] else null
        invariant |Contents| == |old(Contents)|
        invariant forall t :: 0 <= t < i ==> Contents[t] == f(old(Contents)[t])
        invariant forall t :: i <= t < |Contents| ==> Contents[t] == old(Contents)[t]
        decreases |nodes| - i
      {
        SetData(current, i, f(current.data));
        current := current.next;
        i := i + 1;
      }
    }

    /** Whether every value satisfies `pred` (Queue.h:571-581). */
    method AllOf(pred: int -> bool) returns (r: bool)
      requires Valid()
      ensures r <==> forall i :: 0 <= i < |Contents| ==> pred(Contents[i])
    {
      var current := front;
      ghost var i := 0;
      while current != null
        invariant i <= |nodes| && current == if i < |nodes| then nodes[i] else null
        invariant forall t :: 0 <= t < i ==> pred(Contents[t])
        decreases |nodes| - i
      {
        if !pred(current.data) {
          return false;
        }
        current := current.next;
        i := i + 1;
      }
      return true;
    }

    /** Whether some value satisfies `pred` (Queue.h:584-594). */
    method AnyOf(pred: int -> bool) returns (r: bool)
      requires Valid()
      ensures r <==> exists i :: 0 <= i < |Contents| && pred(Contents[i])
    {
      var current := front;
      ghost var i := 0;
      while current != null
        invariant i <= |nodes| && current == if i < |nodes| then nodes[i] else null
        invariant forall t :: 0 <= t < i ==> !pred(Contents[t])
        decreases |nodes| - i
      {
        if pred(current.data) {
          return true;
        }
        current := current.next;
        i := i + 1;
      }
      return false;
    }

    /** The values from front to rear (Queue.h:597-607). */
    method ToVector() returns (v: seq<int>)
      requires Valid()
      ensures v == Contents
    {
      v := [];
      var current := front;
      while current != null
        invariant |v| <= |nodes| && current == if |v| < |nodes| then nodes[|v|] else null
        invariant v == Contents[..|v|]
        decreases |nodes| - |v|
      {
        v := v + [current.data];
        current := current.next;
      }
    }

    /** The values from rear to front: `ToVector` reversed (Queue.h:610-615). */
    method ToVectorReversed() returns (v: seq<int>)
      requires Valid()
      ensures v == Reversed(Contents)
    {
      v := ToVector();
      v := Reversed(v);
    }

    /** Whether both queues hold the same values in the same order (Queue.h:618-636). */
    method Equal(other: Queue) returns (r: bool)
      requires Valid() && other.Valid()
      ensures r == (Contents == other.Contents)
    {
      if size != other.size {
        return false;
      }
      var current1, current2 := front, other.front;
      ghost var i := 0;
      while current1 != null && current2 != null
        invariant i <= |nodes| == |other.nodes|
        invariant current1 == (if i < |nodes| then nodes[i] else null)
        invariant current2 == (if i < |other.nodes| then other.nodes[i] else null)
        invariant Contents[..i] == other.Contents[..i]
        decreases |nodes| - i
      {
        if current1.data != current2.data {
          return false;
        }
        assert Contents[..i + 1] == Contents[..i] + [Contents[i]];
        assert other.Contents[..i + 1] == other.Contents[..i] + [other.Contents[i]];
        current1, current2 := current1.next, current2.next;
        i := i + 1;
      }
      assert Contents[..i] == Contents && other.Contents[..i] == other.Contents;
      return current1 == null && current2 == null;
    }

    /** The negation of `Equal` (Queue.h:639-642). */
    method NotEqual(other: Queue) returns (r: bool)
      requires Valid() && other.Valid()
      ensures r == (Contents != other.Contents)
    {
      var eq := Equal(other);
      return !eq;
    }

    /** The structural self-check: empty ends for size 0, one shared node for size 1, otherwise `size` nodes ending at the rear (Queue.h:666-687). */
    method CheckIntegrity() returns (ok: bool)
      requires Valid()
      ensures ok
    {
      if size == 0 {
        return front == null && rear == null;
      }
      if size == 1 {
        return front == rear && front != null;
      }
      var count := 0;
      var current := front;
      var last: Node? := null;
      while current != null
        invariant count <= |nodes| && current == if count < |nodes| then nodes[count] else null
        invariant last == if count == 0 then null else nodes[count - 1]
        decreases |nodes| - count
      {
        count := count + 1;
        last := current;
        current := current.next;
      }
      return count == size && last == rear;
    }
  }
}
