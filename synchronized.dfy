/**
 * IntSetLinkedListSynchronized: every public operation is a `synchronized`
 * method, so the list and the two global counters are only ever touched by
 * one thread at a time. Here the monitor is a no-op.
 */
module SynchronizedList {
  import opened IntSetSpec
  import opened PlainList

  class IntSetLinkedListSynchronized {
    /** The head sentinel (m_first). */
    const first: Node
    var totalAdds: int
    var totalRemoves: int
    /** The reachable nodes, head first and tail last. */
    ghost var spine: seq<Node>

    /** The invariant `validate()` asserts, plus the shape its walk relies on. */
    ghost predicate Valid()
      reads this, spine
    {
      Chain(first, spine) && Increasing(Values(spine))
      && 2 + totalAdds - totalRemoves == |spine|
    }

    /** The set the list represents: the values strictly between the sentinels. */
    ghost function Contents(): seq<int>
      reads this
      requires 2 <= |spine|
    {
      Interior(Values(spine))
    }

    /** The empty set: head -> tail and both counters zero. */
    constructor ()
      ensures Valid()
      ensures |spine| == 2 && Contents() == [] && fresh(spine[0]) && fresh(spine[1])
      ensures totalAdds == 0 && totalRemoves == 0
    {
      var min := new Node(MIN_VALUE, null);
      var max := new Node(MAX_VALUE, null);
      min.next := max;
      first := min;
      totalAdds := 0;
      totalRemoves := 0;
      spine := [min, max];
    }

    /** Link a new node holding `value` into the window unless the window already holds it. */
    method Add(value: int) returns (result: bool)
      requires Valid() && InRange(value)
      modifies this, set n | n in spine
      ensures Valid()
      ensures result <==> value !in old(Contents())
      ensures Contents() == Insert(old(Contents()), value)
      ensures totalAdds == old(totalAdds) + (if result then 1 else 0)
      ensures totalRemoves == old(totalRemoves)
      ensures !result ==> unchanged(this) && unchanged(spine)
      ensures forall n :: n in spine ==> n in old(spine) || fresh(n)
    {
      ghost var s := Values(spine);
      ghost var sp := spine;
      var previous, next, i := Locate(first, spine, value);
      result := next.value != value;
      assert result <==> value !in Contents() by {
        WindowFindsMember(s, value);
      }
      if result {
        LinkAfter(previous, next, i, value);
      } else {
        AddRefinesInsert(s, value);
      }
    }

    /** The mutation of a successful add: link a node after `previous` and count it. */
    method LinkAfter(previous: Node, next: Node, ghost i: nat, value: int)
      requires Valid() && InRange(value)
      requires i + 1 == Window(Values(spine), value, 1) && previous == spine[i] && next == spine[i + 1]
      requires next.value != value
      modifies this, previous
      ensures Valid()
      ensures Contents() == Insert(old(Contents()), value)
      ensures totalAdds == old(totalAdds) + 1 && totalRemoves == old(totalRemoves)
      ensures forall n :: n in spine ==> n in old(spine) || fresh(n)
    {
      ghost var sp := spine;
      var node := Link(first, sp, previous, next, i, value);
      totalAdds := totalAdds + 1;
      spine := sp[..i + 1] + [node] + sp[i + 1..];
      SpliceSound(sp, i, value, node);
    }

    /** Unlink the window's node if it holds `value`. */
    method Remove(value: int) returns (result: bool)
      requires Valid() && InRange(value)
      modifies this, set n | n in spine
      ensures Valid()
      ensures result <==> value in old(Contents())
      ensures Contents() == Delete(old(Contents()), value)
      ensures totalRemoves == old(totalRemoves) + (if result then 1 else 0)
      ensures totalAdds == old(totalAdds)
      ensures !result ==> unchanged(this) && unchanged(spine)
      ensures forall n :: n in spine ==> n in old(spine)
    {
      ghost var s := Values(spine);
      ghost var sp := spine;
      var previous, next, i := Locate(first, spine, value);
      result := next.value == value;
      assert result <==> value in Contents() by {
        WindowFindsMember(s, value);
      }
      if result {
        UnlinkAfter(previous, next, i, value);
      } else {
        RemoveRefinesDelete(s, value);
      }
    }

    /** The mutation of a successful remove: unlink the node after `previous` and count it. */
    method UnlinkAfter(previous: Node, next: Node, ghost i: nat, value: int)
      requires Valid() && InRange(value)
      requires i + 1 == Window(Values(spine), value, 1) && previous == spine[i] && next == spine[i + 1]
      requires next.value == value
      modifies this, previous
      ensures Valid()
      ensures Contents() == Delete(old(Contents()), value)
      ensures totalRemoves == old(totalRemoves) + 1 && totalAdds == old(totalAdds)
      ensures forall n :: n in spine ==> n in old(spine)
    {
      ghost var sp := spine;
      Unlink(first, sp, previous, next, i);
      totalRemoves := totalRemoves + 1;
      spine := sp[..i + 1] + sp[i + 2..];
      CutSound(sp, i, value);
    }

    /** Membership: the window's node holds `value`. */
    method Contains(value: int) returns (result: bool)
      requires Valid() && InRange(value)
      ensures result <==> value in Contents()
    {
      var previous, next, i := Locate(first, spine, value);
      WindowFindsMember(Values(spine), value);
      result := next.value == value;
    }

    /** The self-check: order, no duplicates, and 2 + totalAdds - totalRemoves nodes. */
    method Validate() returns (ok: bool)
      requires Chain(first, spine)
      ensures ok <==> Valid()
    {
      var ordered, size := CheckOrder(first, spine);
      ok := ordered && 2 + totalAdds - totalRemoves == size;
    }
  }
}
