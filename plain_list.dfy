/**
 * The node and the traversal shared by the three globally synchronised
 * variants (Synchronized, GlobalLock, GlobalRWLock). Each of those Java
 * classes declares its own inner `Node` class; the three are identical, so
 * they are modelled once here.
 */
module PlainList {
  import opened IntSetSpec

  /** A list node: an immutable value and a mutable successor. */
  class Node {
    const value: int
    var next: Node?

    constructor (value: int, next: Node?)
      ensures this.value == value && this.next == next
    {
      this.value := value;
      this.next := next;
    }
  }

  /** The values of a sequence of nodes (values never change, so this reads nothing). */
  function Values(nodes: seq<Node>): seq<int>
  {
    seq(|nodes|, k requires 0 <= k < |nodes| => nodes[k].value)
  }

  /** The values after linking `node` in at position `i + 1`. */
  lemma ValuesSplice(nodes: seq<Node>, i: nat, node: Node)
    requires i < |nodes|
    ensures Values(nodes[..i + 1] + [node] + nodes[i + 1..])
         == Values(nodes)[..i + 1] + [node.value] + Values(nodes)[i + 1..]
  {
  }

  /** The values after unlinking the node at position `i + 1`. */
  lemma ValuesCut(nodes: seq<Node>, i: nat)
    requires i + 1 < |nodes|
    ensures Values(nodes[..i + 1] + nodes[i + 2..]) == Values(nodes)[..i + 1] + Values(nodes)[i + 2..]
  {
  }

  /**
   * `spine` lists the nodes reachable from `head`, in order: each node's
   * successor is the next one, the head holds MIN_VALUE, the last node holds
   * MAX_VALUE and has no successor, and no node in between holds MAX_VALUE.
   * This is the shape every traversal relies on to stop at the tail.
   */
  ghost predicate Chain(head: Node, spine: seq<Node>)
    reads spine
  {
    2 <= |spine| && spine[0] == head && head.value == MIN_VALUE
    && (forall k :: 0 <= k < |spine| - 1 ==> spine[k].next == spine[k + 1])
    && spine[|spine| - 1].value == MAX_VALUE && spine[|spine| - 1].next == null
    && (forall k :: 0 < k < |spine| - 1 ==> spine[k].value < MAX_VALUE)
  }

  /** In a strictly increasing list, distinct positions hold distinct nodes. */
  lemma DistinctNodes(spine: seq<Node>, i: nat)
    requires Increasing(Values(spine)) && i < |spine|
    ensures forall k :: 0 <= k < |spine| ==> (spine[k] == spine[i] <==> k == i)
  {
    forall k | 0 <= k < |spine| ensures spine[k] == spine[i] <==> k == i {
      if k != i {
        assert Values(spine)[k] != Values(spine)[i];
      }
    }
  }

  /** Linking `node` holding `v` in after the window's first node when the window does not hold `v`. */
  lemma SpliceSound(spine: seq<Node>, i: nat, v: int, node: Node)
    requires Framed(Values(spine)) && InRange(v)
    requires i + 1 == Window(Values(spine), v, 1) && spine[i + 1].value != v && node.value == v
    ensures Framed(Values(spine[..i + 1] + [node] + spine[i + 1..]))
    ensures Interior(Values(spine[..i + 1] + [node] + spine[i + 1..])) == Insert(Interior(Values(spine)), v)
    ensures forall n :: n in spine[..i + 1] + [node] + spine[i + 1..] ==> n in spine || n == node
  {
    ValuesSplice(spine, i, node);
    SpliceRefines(Values(spine), v, i);
    SpliceMembers(spine, i, node);
  }

  /** Unlinking the window's node when it holds `v`. */
  lemma CutSound(spine: seq<Node>, i: nat, v: int)
    requires Framed(Values(spine)) && InRange(v)
    requires i + 1 == Window(Values(spine), v, 1) && spine[i + 1].value == v
    ensures Framed(Values(spine[..i + 1] + spine[i + 2..]))
    ensures Interior(Values(spine[..i + 1] + spine[i + 2..])) == Delete(Interior(Values(spine)), v)
    ensures forall n :: n in spine[..i + 1] + spine[i + 2..] ==> n in spine
  {
    WindowBounds(Values(spine), v, 1);
    ValuesCut(spine, i);
    CutRefines(Values(spine), v, i);
    CutMembers(spine, i);
  }

  /**
   * Linking `node` in after position `i` keeps the chain, given that every
   * other link of `spine` is intact and `node` sits between `spine[i]` and
   * `spine[i + 1]`.
   */
  lemma SpliceKeepsChain(head: Node, spine: seq<Node>, i: nat, node: Node)
    requires 2 <= |spine| && spine[0] == head && head.value == MIN_VALUE && i + 1 < |spine|
    requires forall k :: 0 <= k < |spine| - 1 && k != i ==> spine[k].next == spine[k + 1]
    requires spine[|spine| - 1].value == MAX_VALUE && spine[|spine| - 1].next == null
    requires forall k :: 0 < k < |spine| - 1 ==> spine[k].value < MAX_VALUE
    requires spine[i].next == node && node.next == spine[i + 1] && node.value < MAX_VALUE
    ensures Chain(head, spine[..i + 1] + [node] + spine[i + 1..])
  {
    var r := spine[..i + 1] + [node] + spine[i + 1..];
    forall k | 0 <= k < |r| - 1 ensures r[k].next == r[k + 1] {
      if k < i {
        assert r[k] == spine[k] && r[k + 1] == spine[k + 1];
      } else if k > i + 1 {
        assert r[k] == spine[k - 1] && r[k + 1] == spine[k];
      }
    }
  }

  /**
   * Unlinking the node after position `i` keeps the chain, given that every
   * other link of `spine` up to `i + 1` is intact and `spine[i]` now points
   * to `spine[i + 2]`.
   */
  lemma CutKeepsChain(head: Node, spine: seq<Node>, i: nat)
    requires 2 <= |spine| && spine[0] == head && head.value == MIN_VALUE && i + 2 < |spine|
    requires forall k :: 0 <= k < |spine| - 1 && k != i ==> spine[k].next == spine[k + 1]
    requires spine[|spine| - 1].value == MAX_VALUE && spine[|spine| - 1].next == null
    requires forall k :: 0 < k < |spine| - 1 ==> spine[k].value < MAX_VALUE
    requires spine[i].next == spine[i + 2]
    ensures Chain(head, spine[..i + 1] + spine[i + 2..])
  {
    var r := spine[..i + 1] + spine[i + 2..];
    forall k | 0 <= k < |r| - 1 ensures r[k].next == r[k + 1] {
      if k < i {
        assert r[k] == spine[k] && r[k + 1] == spine[k + 1];
      } else if k > i {
        assert r[k] == spine[k + 1] && r[k + 1] == spine[k + 2];
      }
    }
  }

  /**
   * The traversal at the start of add, remove and contains: advance
   * `previous`/`next` from the head until `next` holds a value not below `v`.
   * It stops at the tail at the latest, with `previous.next == next`.
   */
  method Locate(head: Node, ghost spine: seq<Node>, v: int) returns (previous: Node, next: Node, ghost i: nat)
    requires Chain(head, spine) && IsInt(v)
    ensures i + 1 == Window(Values(spine), v, 1)
    ensures previous == spine[i] && next == spine[i + 1] && previous.next == next
    ensures i == 0 || previous.value < v
    ensures v <= next.value
  {
    previous := head;
    assert spine[1] == spine[0].next;
    next := previous.next;
    i := 0;
    while next.value < v
      invariant i + 1 < |spine| && previous == spine[i] && next == spine[i + 1]
      invariant i == 0 || previous.value < v
      invariant Window(Values(spine), v, 1) == Window(Values(spine), v, i + 1)
      decreases |spine| - i
    {
      previous := next;
      next := previous.next;
      i := i + 1;
    }
  }

  /** The write at the heart of add: `previous.next := new Node(value, next)`. */
  method Link(head: Node, ghost spine: seq<Node>, previous: Node, next: Node, ghost i: nat, value: int)
    returns (node: Node)
    requires Chain(head, spine) && Increasing(Values(spine))
    requires i + 1 < |spine| && previous == spine[i] && next == spine[i + 1] && value < MAX_VALUE
    modifies previous
    ensures fresh(node) && node.value == value
    ensures Chain(head, spine[..i + 1] + [node] + spine[i + 1..])
  {
    node := new Node(value, next);
    previous.next := node;
    DistinctNodes(spine, i);
    SpliceKeepsChain(head, spine, i, node);
  }

  /** The write at the heart of remove: `previous.next := next.next`. */
  method Unlink(head: Node, ghost spine: seq<Node>, previous: Node, next: Node, ghost i: nat)
    requires Chain(head, spine) && Increasing(Values(spine))
    requires i + 2 < |spine| && previous == spine[i] && next == spine[i + 1]
    modifies previous
    ensures Chain(head, spine[..i + 1] + spine[i + 2..])
  {
    assert spine[i + 2] == next.next;
    previous.next := next.next;
    DistinctNodes(spine, i);
    CutKeepsChain(head, spine, i);
  }

  /**
   * The walk of `validate()`: from the head to the tail, check that each
   * value is above the previous one and has not been seen before, and count
   * the nodes (sentinels included). The first failed check ends the walk.
   */
  method CheckOrder(head: Node, ghost spine: seq<Node>) returns (ordered: bool, size: int)
    requires Chain(head, spine)
    ensures ordered <==> Increasing(Values(spine))
    ensures ordered ==> size == |spine|
  {
    ghost var s := Values(spine);
    var checker: set<int> := {};
    var previousValue := head.value;
    assert spine[1] == spine[0].next;
    var node := head.next;
    var value := node.value;
    size := 2;
    ghost var i := 1;
    while value < MAX_VALUE
      invariant 1 <= i < |spine| && node == spine[i] && value == s[i]
      invariant previousValue == s[i - 1]
      invariant Increasing(s[..i])
      invariant forall x :: x in checker ==> x <= previousValue
      invariant size == i + 1
      decreases |spine| - i
    {
      if !(previousValue < value) || value in checker {
        return false, size;
      }
      IncreasingExtend(s, i);
      assert spine[i + 1] == spine[i].next;
      checker := checker + {value};
      previousValue := value;
      node := node.next;
      value := node.value;
      size := size + 1;
      i := i + 1;
    }
    assert i == |spine| - 1;
    IncreasingExtend(s, i);
    assert s[..i + 1] == s;
    ordered := true;
  }
}
