/**
 * IntSetLinkedListGlobalLock: every operation holds one ReentrantLock for
 * its whole duration (here a no-op). The methods decide with an early
 * return on `value == v` instead of a result variable.
 */
module GlobalLockList {
  import opened IntSetSpec
  import opened PlainList

  class IntSetLinkedListGlobalLock {
    /** The head sentinel (m_first). */
    const first: Node
    var totalAdds: int
    var totalRemoves: int
    /** The reachable nodes, head first and tail last. */
    ghost var spine: seq<Node>

    /** The invariant `validate()` asserts, plus the shape its walk relies on. */
    ghost predicate Valid()
      reads this, spine
    {
      Chain(first, spine) && Increasing(Values(spine))
      && 2 + totalAdds - totalRemoves == |spine|
    }

    /** The set the list represents: the values strictly between the sentinels. */
    ghost function Contents(): seq<int>
      reads this
      requires 2 <= |spine|
    {
      Interior(Values(spine))
    }

    /** The empty set: head -> tail and both counters zero. */
    constructor ()
      ensures Valid()
      ensures |spine| == 2 && Contents() == [] && fresh(spine[0]) && fresh(spine[1])
      ensures totalAdds == 0 && totalRemoves == 0
    {
      var min := new Node(MIN_VALUE, null);
      var max := new Node(MAX_VALUE, null);
      min.next := max;
      first := min;
      totalAdds := 0;
      totalRemoves := 0;
      spine := [min, max];
    }

    /** Link a new node holding `value` into the window unless the window already holds it. */
    method Add(value: int) returns (result: bool)
      requires Valid() && InRange(value)
      modifies this, set n | n in spine
      ensures Valid()
      ensures result <==> value !in old(Contents())
      ensures Contents() == Insert(old(Contents()), value)
      ensures totalAdds == old(totalAdds) + (if result then 1 else 0)
      ensures totalRemoves == old(totalRemoves)
      ensures !result ==> unchanged(this) && unchanged(spine)
      ensures forall n :: n in spine ==> n in old(spine) || fresh(n)
    {
      ghost var s := Values(spine);
      var previous, next, i := Locate(first, spine, value);
      WindowFindsMember(s, value);
      if value == next.value {
        AddRefinesInsert(s, value);
        return false;
      } else {
        LinkAfter(previous, next, i, value);
        return true;
      }
    }

    /** The mutation of a successful add: link a node after `previous` and count it. */
    method LinkAfter(previous: Node, next: Node, ghost i: nat, value: int)
      requires Valid() && InRange(value)
      requires i + 1 == Window(Values(spine), value, 1) && previous == spine[i] && next == spine[i + 1]
      requires next.value != value
      modifies this, previous
      ensures Valid()
      ensures Contents() == Insert(old(Contents()), value)
      ensures totalAdds == old(totalAdds) + 1 && totalRemoves == old(totalRemoves)
      ensures forall n :: n in spine ==> n in old(spine) || fresh(n)
    {
      ghost var sp := spine;
      var node := Link(first, sp, previous, next, i, value);
      totalAdds := totalAdds + 1;
      spine := sp[..i + 1] + [node] + sp[i + 1..];
      SpliceSound(sp, i, value, node);
    }

    /** Unlink the window's node if it holds `value`. */
    method Remove(value: int) returns (result: bool)
      requires Valid() && InRange(value)
      modifies this, set n | n in spine
      ensures Valid()
      ensures result <==> value in old(Contents())
      ensures Contents() == Delete(old(Contents()), value)
      ensures totalRemoves == old(totalRemoves) + (if result then 1 else 0)
      ensures totalAdds == old(totalAdds)
      ensures !result ==> unchanged(this) && unchanged(spine)
      ensures forall n :: n in spine ==> n in old(spine)
    {
      ghost var s := Values(spine);
      var previous, next, i := Locate(first, spine, value);
      WindowFindsMember(s, value);
      if value == next.value {
        UnlinkAfter(previous, next, i, value);
        return true;
      } else {
        RemoveRefinesDelete(s, value);
        return false;
      }
    }

    /** The mutation of a successful remove: unlink the node after `previous` and count it. */
    method UnlinkAfter(previous: Node, next: Node, ghost i: nat, value: int)
      requires Valid() && InRange(value)
      requires i + 1 == Window(Values(spine), value, 1) && previous == spine[i] && next == spine[i + 1]
      requires next.value == value
      modifies this, previous
      ensures Valid()
      ensures Contents() == Delete(old(Contents()), value)
      ensures totalRemoves == old(totalRemoves) + 1 && totalAdds == old(totalAdds)
      ensures forall n :: n in spine ==> n in old(spine)
    {
      ghost var sp := spine;
      Unlink(first, sp, previous, next, i);
      totalRemoves := totalRemoves + 1;
      spine := sp[..i + 1] + sp[i + 2..];
      CutSound(sp, i, value);
    }

    /** Membership: the window's node holds `value`. */
    method Contains(value: int) returns (result: bool)
      requires Valid() && InRange(value)
      ensures result <==> value in Contents()
    {
      var previous, next, i := Locate(first, spine, value);
      WindowFindsMember(Values(spine), value);
      if value == next.value {
        return true;
      } else {
        return false;
      }
    }

    /** The self-check: order, no duplicates, and 2 + totalAdds - totalRemoves nodes. */
    method Validate() returns (ok: bool)
      requires Chain(first, spine)
      ensures ok <==> Valid()
    {
      var ordered, size := CheckOrder(first, spine);
      ok := ordered && 2 + totalAdds - totalRemoves == size;
    }
  }

  /**
   * A run from the empty set: add(5), add(3), add(5), contains(3),
   * remove(3), contains(3), remove(3).
   */
  method ExampleRun() returns (results: seq<bool>, list: IntSetLinkedListGlobalLock)
    ensures results == [true, true, false, true, true, false, false]
    ensures list.Valid() && list.Contents() == [5]
    ensures list.totalAdds == 2 && list.totalRemoves == 1
  {
    list := new IntSetLinkedListGlobalLock();
    var r0 := list.Add(5);
    assert list.Contents() == [5];
    assert forall n :: n in list.spine ==> fresh(n);
    var r1 := list.Add(3);
    assert list.Contents() == [3, 5];
    assert forall n :: n in list.spine ==> fresh(n);
    var r2 := list.Add(5);
    var r3 := list.Contains(3);
    var r4 := list.Remove(3);
    assert list.Contents() == [5];
    assert forall n :: n in list.spine ==> fresh(n);
    var r5 := list.Contains(3);
    var r6 := list.Remove(3);
    results := [r0, r1, r2, r3, r4, r5, r6];
  }
}
