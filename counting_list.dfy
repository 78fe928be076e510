/**
 * The node and the traversal shared by the per-node-lock variants
 * PerNodeLock and OptimisticPerNodeLock. Each of those Java classes declares
 * its own inner `Node` class; the two are identical (a value, a successor, a
 * lock and the `add`/`remove` counters), so they are modelled once here.
 * The lock is a no-op and is not modelled.
 *
 * There are no global counters in these variants: each successful add is
 * counted in the predecessor of the new node and each successful remove in
 * the predecessor of the removed node, which also takes over the removed
 * node's counters. `validate` sums the counters of every reachable node.
 */
module CountingList {
  import opened IntSetSpec
  import opened Counters

  /** A list node: an immutable value, a mutable successor and two counters. */
  class Node {
    const value: int
    var next: Node?
    var add: int
    var remove: int

    /** A new node counts nothing yet. */
    constructor (value: int, next: Node?)
      ensures this.value == value && this.next == next
      ensures add == 0 && remove == 0
    {
      this.value := value;
      this.next := next;
      add := 0;
      remove := 0;
    }

    method IncAdd()
      modifies `add
      ensures add == old(add) + 1
    {
      add := add + 1;
    }

    method IncAmountAdd(amount: int)
      modifies `add
      ensures add == old(add) + amount
    {
      add := add + amount;
    }

    method IncAmountRemove(amount: int)
      modifies `remove
      ensures remove == old(remove) + amount
    {
      remove := remove + amount;
    }

    method IncRemove()
      modifies `remove
      ensures remove == old(remove) + 1
    {
      remove := remove + 1;
    }
  }

  /** The values of a sequence of nodes (values never change, so this reads nothing). */
  function Values(nodes: seq<Node>): seq<int>
  {
    seq(|nodes|, k requires 0 <= k < |nodes| => nodes[k].value)
  }

  /** The `add` counters of a sequence of nodes. */
  ghost function Adds(nodes: seq<Node>): seq<int>
    reads nodes
  {
    seq(|nodes|, k requires 0 <= k < |nodes| reads nodes => nodes[k].add)
  }

  /** The `remove` counters of a sequence of nodes. */
  ghost function Removes(nodes: seq<Node>): seq<int>
    reads nodes
  {
    seq(|nodes|, k requires 0 <= k < |nodes| reads nodes => nodes[k].remove)
  }

  /** The counter invariant `validate` checks: 2 + (all adds) - (all removes) is the number of nodes. */
  ghost predicate Balanced(spine: seq<Node>)
    reads spine
  {
    2 + Sum(Adds(spine)) - Sum(Removes(spine)) == |spine|
  }

  /** A sound counting list: a chain from `head`, strictly increasing, with balanced counters. */
  ghost predicate Sound(head: Node, spine: seq<Node>)
    reads spine
  {
    Chain(head, spine) && Increasing(Values(spine)) && Balanced(spine)
  }

  /** `Sound`, with `a` and `r` the nodes' add and remove counters in list order. */
  ghost predicate Mirrored(head: Node, spine: seq<Node>, a: seq<int>, r: seq<int>)
    reads spine
  {
    Sound(head, spine) && a == Adds(spine) && r == Removes(spine)
  }

  /**
   * The empty list of the constructors: a head sentinel holding MIN_VALUE
   * linked to a tail sentinel holding MAX_VALUE, every counter zero.
   */
  method NewList() returns (head: Node, ghost spine: seq<Node>)
    ensures Chain(head, spine) && Increasing(Values(spine)) && Balanced(spine)
    ensures |spine| == 2 && Interior(Values(spine)) == [] && fresh(spine[0]) && fresh(spine[1])
    ensures Sum(Adds(spine)) == 0 && Sum(Removes(spine)) == 0
  {
    var max := new Node(MAX_VALUE, null);
    head := new Node(MIN_VALUE, max);
    spine := [head, max];
    assert Adds(spine) == [0, 0] && Removes(spine) == [0, 0];
    assert Sum([0, 0]) == 0 + Sum([0]);
    assert Values(spine) == [MIN_VALUE, MAX_VALUE];
  }

  /** The values after linking `node` in at position `i + 1`. */
  lemma ValuesSplice(nodes: seq<Node>, i: nat, node: Node)
    requires i < |nodes|
    ensures Values(nodes[..i + 1] + [node] + nodes[i + 1..])
         == Values(nodes)[..i + 1] + [node.value] + Values(nodes)[i + 1..]
  {
  }

  /** The values after unlinking the node at position `i + 1`. */
  lemma ValuesCut(nodes: seq<Node>, i: nat)
    requires i + 1 < |nodes|
    ensures Values(nodes[..i + 1] + nodes[i + 2..]) == Values(nodes)[..i + 1] + Values(nodes)[i + 2..]
  {
  }

  /**
   * `spine` lists the nodes reachable from `head`, in order, from the head
   * sentinel (MIN_VALUE) to the tail sentinel (MAX_VALUE, no successor);
   * no node in between holds MAX_VALUE.
   */
  ghost predicate Chain(head: Node, spine: seq<Node>)
    reads spine`next
  {
    2 <= |spine| && spine[0] == head && head.value == MIN_VALUE
    && (forall k :: 0 <= k < |spine| - 1 ==> spine[k].next == spine[k + 1])
    && spine[|spine| - 1].value == MAX_VALUE && spine[|spine| - 1].next == null
    && (forall k :: 0 < k < |spine| - 1 ==> spine[k].value < MAX_VALUE)
  }

  /** In a strictly increasing list, distinct positions hold distinct nodes. */
  lemma DistinctNodes(spine: seq<Node>, i: nat)
    requires Increasing(Values(spine)) && i < |spine|
    ensures forall k :: 0 <= k < |spine| ==> (spine[k] == spine[i] <==> k == i)
  {
    forall k | 0 <= k < |spine| ensures spine[k] == spine[i] <==> k == i {
      if k != i {
        assert Values(spine)[k] != Values(spine)[i];
      }
    }
  }

  /** Linking `node` holding `v` in after the window's first node when the window does not hold `v`. */
  lemma SpliceSound(spine: seq<Node>, i: nat, v: int, node: Node)
    requires Framed(Values(spine)) && InRange(v)
    requires i + 1 == Window(Values(spine), v, 1) && spine[i + 1].value != v && node.value == v
    ensures Framed(Values(spine[..i + 1] + [node] + spine[i + 1..]))
    ensures Interior(Values(spine[..i + 1] + [node] + spine[i + 1..])) == Insert(Interior(Values(spine)), v)
    ensures forall n :: n in spine[..i + 1] + [node] + spine[i + 1..] ==> n in spine || n == node
  {
    ValuesSplice(spine, i, node);
    SpliceRefines(Values(spine), v, i);
    SpliceMembers(spine, i, node);
  }

  /** Unlinking the window's node when it holds `v`. */
  lemma CutSound(spine: seq<Node>, i: nat, v: int)
    requires Framed(Values(spine)) && InRange(v)
    requires i + 1 == Window(Values(spine), v, 1) && spine[i + 1].value == v
    ensures Framed(Values(spine[..i + 1] + spine[i + 2..]))
    ensures Interior(Values(spine[..i + 1] + spine[i + 2..])) == Delete(Interior(Values(spine)), v)
    ensures forall n :: n in spine[..i + 1] + spine[i + 2..] ==> n in spine
  {
    WindowBounds(Values(spine), v, 1);
    ValuesCut(spine, i);
    CutRefines(Values(spine), v, i);
    CutMembers(spine, i);
  }

  /** Linking `node` in after position `i` keeps the chain when every other link is intact. */
  lemma SpliceKeepsChain(head: Node, spine: seq<Node>, i: nat, node: Node)
    requires 2 <= |spine| && spine[0] == head && head.value == MIN_VALUE && i + 1 < |spine|
    requires forall k :: 0 <= k < |spine| - 1 && k != i ==> spine[k].next == spine[k + 1]
    requires spine[|spine| - 1].value == MAX_VALUE && spine[|spine| - 1].next == null
    requires forall k :: 0 < k < |spine| - 1 ==> spine[k].value < MAX_VALUE
    requires spine[i].next == node && node.next == spine[i + 1] && node.value < MAX_VALUE
    ensures Chain(head, spine[..i + 1] + [node] + spine[i + 1..])
  {
    var r := spine[..i + 1] + [node] + spine[i + 1..];
    forall k | 0 <= k < |r| - 1 ensures r[k].next == r[k + 1] {
      if k < i {
        assert r[k] == spine[k] && r[k + 1] == spine[k + 1];
      } else if k > i + 1 {
        assert r[k] == spine[k - 1] && r[k + 1] == spine[k];
      }
    }
  }

  /** Unlinking the node after position `i` keeps the chain when every other link is intact. */
  lemma CutKeepsChain(head: Node, spine: seq<Node>, i: nat)
    requires 2 <= |spine| && spine[0] == head && head.value == MIN_VALUE && i + 2 < |spine|
    requires forall k :: 0 <= k < |spine| - 1 && k != i ==> spine[k].next == spine[k + 1]
    requires spine[|spine| - 1].value == MAX_VALUE && spine[|spine| - 1].next == null
    requires forall k :: 0 < k < |spine| - 1 ==> spine[k].value < MAX_VALUE
    requires spine[i].next == spine[i + 2]
    ensures Chain(head, spine[..i + 1] + spine[i + 2..])
  {
    var r := spine[..i + 1] + spine[i + 2..];
    forall k | 0 <= k < |r| - 1 ensures r[k].next == r[k + 1] {
      if k < i {
        assert r[k] == spine[k] && r[k + 1] == spine[k + 1];
      } else if k > i {
        assert r[k] == spine[k + 1] && r[k + 1] == spine[k + 2];
      }
    }
  }

  /** The counters after a link at `i + 1`, given what each node now counts. */
  lemma CountersAfterLink(spine: seq<Node>, i: nat, node: Node, a: seq<int>, r: seq<int>)
    requires i + 1 < |spine| && |a| == |spine| && |r| == |spine|
    requires forall k :: 0 <= k < |spine| && k != i ==> spine[k].add == a[k] && spine[k].remove == r[k]
    requires spine[i].add == a[i] + 1 && spine[i].remove == r[i]
    requires node.add == 0 && node.remove == 0
    ensures Adds(spine[..i + 1] + [node] + spine[i + 1..]) == Linked(a, i, 1)
    ensures Removes(spine[..i + 1] + [node] + spine[i + 1..]) == Linked(r, i, 0)
  {
    var n := spine[..i + 1] + [node] + spine[i + 1..];
    forall k | 0 <= k < |n| ensures n[k].add == Linked(a, i, 1)[k] && n[k].remove == Linked(r, i, 0)[k] {
      if k < i {
        assert n[k] == spine[k];
      } else if k > i + 1 {
        assert n[k] == spine[k - 1];
      }
    }
  }

  /** After a link the added counters sum to one more and the removed ones to the same. */
  lemma TotalsAfterLink(spine: seq<Node>, i: nat, node: Node, a: seq<int>, r: seq<int>)
    requires i + 1 < |spine| && |a| == |spine| && |r| == |spine|
    requires forall k :: 0 <= k < |spine| && k != i ==> spine[k].add == a[k] && spine[k].remove == r[k]
    requires spine[i].add == a[i] + 1 && spine[i].remove == r[i]
    requires node.add == 0 && node.remove == 0
    ensures Sum(Adds(spine[..i + 1] + [node] + spine[i + 1..])) == Sum(a) + 1
    ensures Sum(Removes(spine[..i + 1] + [node] + spine[i + 1..])) == Sum(r)
  {
    var n := spine[..i + 1] + [node] + spine[i + 1..];
    CountersAfterLink(spine, i, node, a, r);
    SumLinked(a, i, 1);
    SumLinked(r, i, 0);
  }

  /** The counters after the node at `i + 1` is cut out, given what each node now counts. */
  lemma CountersAfterCut(spine: seq<Node>, i: nat, a: seq<int>, r: seq<int>)
    requires i + 2 < |spine| && |a| == |spine| && |r| == |spine|
    requires forall k :: 0 <= k < |spine| && k != i ==> spine[k].add == a[k] && spine[k].remove == r[k]
    requires spine[i].add == a[i] + a[i + 1] && spine[i].remove == r[i] + r[i + 1] + 1
    ensures Adds(spine[..i + 1] + spine[i + 2..]) == Folded(a, i, 0)
    ensures Removes(spine[..i + 1] + spine[i + 2..]) == Folded(r, i, 1)
  {
    var n := spine[..i + 1] + spine[i + 2..];
    forall k | 0 <= k < |n| ensures n[k].add == Folded(a, i, 0)[k] && n[k].remove == Folded(r, i, 1)[k] {
      if k < i {
        assert n[k] == spine[k];
      } else if k > i {
        assert n[k] == spine[k + 1];
      }
    }
  }

  /** After a cut and fold the added counters sum to the same and the removed ones to one more. */
  lemma TotalsAfterCut(spine: seq<Node>, i: nat, a: seq<int>, r: seq<int>)
    requires i + 2 < |spine| && |a| == |spine| && |r| == |spine|
    requires forall k :: 0 <= k < |spine| && k != i ==> spine[k].add == a[k] && spine[k].remove == r[k]
    requires spine[i].add == a[i] + a[i + 1] && spine[i].remove == r[i] + r[i + 1] + 1
    ensures Sum(Adds(spine[..i + 1] + spine[i + 2..])) == Sum(a)
    ensures Sum(Removes(spine[..i + 1] + spine[i + 2..])) == Sum(r) + 1
  {
    var n := spine[..i + 1] + spine[i + 2..];
    CountersAfterCut(spine, i, a, r);
    SumFolded(a, i, 0);
    SumFolded(r, i, 1);
  }

  /**
   * The traversal of add, remove and contains (hand over hand in
   * PerNodeLock, unlocked in OptimisticPerNodeLock): advance
   * `previous`/`next` from the head until `next` holds a value not below
   * `v`. It stops at the tail at the latest, with `previous.next == next`.
   */
  method Locate(head: Node, ghost spine: seq<Node>, v: int) returns (previous: Node, next: Node, ghost i: nat)
    requires Chain(head, spine) && IsInt(v)
    ensures i + 1 == Window(Values(spine), v, 1)
    ensures previous == spine[i] && next == spine[i + 1] && previous.next == next
    ensures i == 0 || previous.value < v
    ensures v <= next.value
  {
    previous := head;
    assert spine[1] == spine[0].next;
    next := previous.next;
    i := 0;
    while next.value < v
      invariant i + 1 < |spine| && previous == spine[i] && next == spine[i + 1]
      invariant i == 0 || previous.value < v
      invariant Window(Values(spine), v, 1) == Window(Values(spine), v, i + 1)
      decreases |spine| - i
    {
      previous := next;
      next := previous.next;
      i := i + 1;
    }
  }

  /**
   * The mutation of a successful add: `previous.next := new Node(value,
   * next)`, then `previous.incAdd()`. The new node counts nothing and
   * the predecessor counts one more add. `t` is the list with the new node
   * linked in.
   */
  method Link(head: Node, ghost spine: seq<Node>, previous: Node, next: Node, ghost i: nat, value: int,
              ghost a: seq<int>, ghost r: seq<int>)
    returns (ghost t: seq<Node>)
    requires Sound(head, spine) && InRange(value) && i + 1 == Window(Values(spine), value, 1)
    requires previous == spine[i] && next == spine[i + 1] && next.value != value
    requires a == Adds(spine) && r == Removes(spine)
    modifies previous
    ensures Sound(head, t) && |t| == |spine| + 1
    ensures Interior(Values(t)) == Insert(Interior(Values(spine)), value)
    ensures Adds(t) == Linked(a, i, 1) && Removes(t) == Linked(r, i, 0)
    ensures Sum(Adds(t)) == Sum(a) + 1 && Sum(Removes(t)) == Sum(r)
    ensures forall n :: n in t ==> n in spine || fresh(n)
  {
    assert Framed(Values(spine));
    DistinctNodes(spine, i);
    var node := new Node(value, next);
    t := spine[..i + 1] + [node] + spine[i + 1..];
    SpliceSound(spine, i, value, node);
    previous.next := node;
    previous.IncAdd();
    SpliceKeepsChain(head, spine, i, node);
    assert previous.add == a[i] + 1 && previous.remove == r[i];
    CountersAfterLink(spine, i, node, a, r);
    TotalsAfterLink(spine, i, node, a, r);
  }

  /**
   * The mutation of a successful remove in PerNodeLock: unlink `next`,
   * count the remove in `previous`, then fold `next`'s counters into
   * `previous`'s. `t` is the list without `next`.
   */
  method UnlinkThenFold(head: Node, ghost spine: seq<Node>, previous: Node, next: Node, ghost i: nat, value: int,
                        ghost a: seq<int>, ghost r: seq<int>)
    returns (ghost t: seq<Node>)
    requires Sound(head, spine) && InRange(value) && i + 1 == Window(Values(spine), value, 1)
    requires previous == spine[i] && next == spine[i + 1] && next.value == value
    requires a == Adds(spine) && r == Removes(spine)
    modifies previous
    ensures Sound(head, t) && |t| == |spine| - 1
    ensures Interior(Values(t)) == Delete(Interior(Values(spine)), value)
    ensures Adds(t) == Folded(a, i, 0) && Removes(t) == Folded(r, i, 1)
    ensures Sum(Adds(t)) == Sum(a) && Sum(Removes(t)) == Sum(r) + 1
    ensures forall n :: n in t ==> n in spine
  {
    assert Framed(Values(spine));
    CutSound(spine, i, value);
    t := spine[..i + 1] + spine[i + 2..];
    DistinctNodes(spine, i);
    assert spine[i + 2] == next.next;
    previous.next := next.next;
    previous.IncRemove();
    previous.IncAmountAdd(next.add);
    previous.IncAmountRemove(next.remove);
    CutKeepsChain(head, spine, i);
    assert previous.add == a[i] + a[i + 1] && previous.remove == r[i] + r[i + 1] + 1;
    CountersAfterCut(spine, i, a, r);
    TotalsAfterCut(spine, i, a, r);
  }

  /**
   * The mutation of a successful remove in OptimisticPerNodeLock: fold
   * `next`'s counters into `previous`'s, unlink `next`, then count the
   * remove. It ends in the same state as UnlinkThenFold.
   */
  method FoldThenUnlink(head: Node, ghost spine: seq<Node>, previous: Node, next: Node, ghost i: nat, value: int,
                        ghost a: seq<int>, ghost r: seq<int>)
    returns (ghost t: seq<Node>)
    requires Sound(head, spine) && InRange(value) && i + 1 == Window(Values(spine), value, 1)
    requires previous == spine[i] && next == spine[i + 1] && next.value == value
    requires a == Adds(spine) && r == Removes(spine)
    modifies previous
    ensures Sound(head, t) && |t| == |spine| - 1
    ensures Interior(Values(t)) == Delete(Interior(Values(spine)), value)
    ensures Adds(t) == Folded(a, i, 0) && Removes(t) == Folded(r, i, 1)
    ensures Sum(Adds(t)) == Sum(a) && Sum(Removes(t)) == Sum(r) + 1
    ensures forall n :: n in t ==> n in spine
  {
    assert Framed(Values(spine));
    CutSound(spine, i, value);
    t := spine[..i + 1] + spine[i + 2..];
    DistinctNodes(spine, i);
    previous.IncAmountAdd(next.add);
    previous.IncAmountRemove(next.remove);
    assert spine[i + 2] == next.next;
    previous.next := next.next;
    previous.IncRemove();
    CutKeepsChain(head, spine, i);
    assert previous.add == a[i] + a[i + 1] && previous.remove == r[i] + r[i + 1] + 1;
    CountersAfterCut(spine, i, a, r);
    TotalsAfterCut(spine, i, a, r);
  }

  /**
   * The walk of `validate()`: from the head to the tail, sum every node's
   * counters (the tail's included), check that each value is above the
   * previous one and has not been seen before, and count the nodes. The
   * first failed check ends the walk.
   */
  method CheckCounts(head: Node, ghost spine: seq<Node>) returns (ordered: bool, size: int, totalAdds: int, totalRemoves: int)
    requires Chain(head, spine)
    ensures ordered <==> Increasing(Values(spine))
    ensures ordered ==> size == |spine| && totalAdds == Sum(Adds(spine)) && totalRemoves == Sum(Removes(spine))
  {
    ghost var s := Values(spine);
    ghost var a := Adds(spine);
    ghost var r := Removes(spine);
    size := 2;
    totalAdds := head.add;
    totalRemoves := head.remove;
    assert a[..1] == [a[0]] && r[..1] == [r[0]];
    var checker: set<int> := {};
    var previousValue := head.value;
    assert spine[1] == spine[0].next;
    var node := head.next;
    var value := node.value;
    ghost var i := 1;
    while value < MAX_VALUE
      invariant 1 <= i < |spine| && node == spine[i] && value == s[i]
      invariant previousValue == s[i - 1]
      invariant Increasing(s[..i])
      invariant forall x :: x in checker ==> x <= previousValue
      invariant size == i + 1
      invariant totalAdds == Sum(a[..i]) && totalRemoves == Sum(r[..i])
      decreases |spine| - i
    {
      SumPrefix(a, i);
      SumPrefix(r, i);
      totalAdds := totalAdds + node.add;
      totalRemoves := totalRemoves + node.remove;
      if !(previousValue < value) || value in checker {
        return false, size, totalAdds, totalRemoves;
      }
      IncreasingExtend(s, i);
      assert spine[i + 1] == spine[i].next;
      checker := checker + {value};
      previousValue := value;
      node := node.next;
      value := node.value;
      size := size + 1;
      i := i + 1;
    }
    assert i == |spine| - 1;
    SumPrefix(a, i);
    SumPrefix(r, i);
    assert a[..i + 1] == a && r[..i + 1] == r;
    totalAdds := totalAdds + node.add;
    totalRemoves := totalRemoves + node.remove;
    IncreasingExtend(s, i);
    assert s[..i + 1] == s;
    ordered := true;
  }
}
