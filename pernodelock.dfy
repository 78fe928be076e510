/**
 * IntSetLinkedListPerNodeLock: hand-over-hand locking, one lock per node.
 * The traversal holds the locks of `previous` and `next` and releases
 * `previous` before it moves on; the locks are no-ops here.
 *
 * Instead of global counters, each successful add is counted in the
 * predecessor of the new node, and each successful remove in the
 * predecessor of the removed node, which then takes over the removed
 * node's own counters. What `validate()` checks is therefore the sum of the
 * counters of all reachable nodes.
 */
module PerNodeLockList {
  import opened IntSetSpec
  import opened Counters
  import opened CountingList

  class IntSetLinkedListPerNodeLock {
    /** The head sentinel (m_first). */
    const first: Node
    /** The reachable nodes, head first and tail last. */
    ghost var spine: seq<Node>
    /** The reachable nodes' `add` counters, in list order. */
    ghost var adds: seq<int>
    /** The reachable nodes' `remove` counters, in list order. */
    ghost var removes: seq<int>

    /** The invariant `validate()` asserts, the shape its walk relies on, and the counters' mirror. */
    ghost predicate Valid()
      reads this, spine
    {
      Mirrored(first, spine, adds, removes)
    }

    /** The set the list represents: the values strictly between the sentinels. */
    ghost function Contents(): seq<int>
      reads this
      requires 2 <= |spine|
    {
      Interior(Values(spine))
    }

    /** The sum of the reachable nodes' add counters. */
    ghost function TotalAdds(): int
      reads this
    {
      Sum(adds)
    }

    /** The sum of the reachable nodes' remove counters. */
    ghost function TotalRemoves(): int
      reads this
    {
      Sum(removes)
    }

    /** The empty set: head -> tail, every counter zero. */
    constructor ()
      ensures Valid()
      ensures |spine| == 2 && Contents() == [] && fresh(spine[0]) && fresh(spine[1])
      ensures TotalAdds() == 0 && TotalRemoves() == 0
    {
      var head;
      ghost var sp;
      head, sp := NewList();
      first := head;
      spine := sp;
      adds := Adds(sp);
      removes := Removes(sp);
    }

    /** Link a new node holding `value` into the window unless the window already holds it. */
    method Add(value: int) returns (result: bool)
      requires Valid() && InRange(value)
      modifies this, set n | n in spine
      ensures Valid()
      ensures result <==> value !in old(Contents())
      ensures Contents() == Insert(old(Contents()), value)
      ensures TotalAdds() == old(TotalAdds()) + (if result then 1 else 0)
      ensures TotalRemoves() == old(TotalRemoves())
      ensures result ==> adds == Linked(old(adds), Window(Values(old(spine)), value, 1) - 1, 1)
      ensures result ==> removes == Linked(old(removes), Window(Values(old(spine)), value, 1) - 1, 0)
      ensures !result ==> unchanged(this) && unchanged(spine)
      ensures forall n :: n in spine ==> n in old(spine) || fresh(n)
    {
      var previous, next, i := Locate(first, spine, value);
      result := AddAt(previous, next, i, value);
    }

    /** The locked window: link a new node holding `value` into it unless `next` holds `value`. */
    method AddAt(previous: Node, next: Node, ghost i: nat, value: int) returns (result: bool)
      requires Valid() && InRange(value)
      requires i + 1 == Window(Values(spine), value, 1) && previous == spine[i] && next == spine[i + 1]
      modifies this, previous
      ensures Valid()
      ensures result <==> value !in old(Contents())
      ensures Contents() == Insert(old(Contents()), value)
      ensures TotalAdds() == old(TotalAdds()) + (if result then 1 else 0)
      ensures TotalRemoves() == old(TotalRemoves())
      ensures result ==> adds == Linked(old(adds), i, 1) && removes == Linked(old(removes), i, 0)
      ensures !result ==> unchanged(this) && unchanged(spine)
      ensures forall n :: n in spine ==> n in old(spine) || fresh(n)
    {
      WindowFindsMember(Values(spine), value);
      if value == next.value {
        AddRefinesInsert(Values(spine), value);
        result := false;
      } else {
        LinkAfter(previous, next, i, value);
        result := true;
      }
    }

    /** The mutation of a successful add: link a node after `previous`, which counts the add. */
    method LinkAfter(previous: Node, next: Node, ghost i: nat, value: int)
      requires Valid() && InRange(value)
      requires i + 1 == Window(Values(spine), value, 1) && previous == spine[i] && next == spine[i + 1]
      requires next.value != value
      modifies this, previous
      ensures Valid()
      ensures Contents() == Insert(old(Contents()), value)
      ensures TotalAdds() == old(TotalAdds()) + 1 && TotalRemoves() == old(TotalRemoves())
      ensures adds == Linked(old(adds), i, 1) && removes == Linked(old(removes), i, 0)
      ensures forall n :: n in spine ==> n in old(spine) || fresh(n)
    {
      ghost var sp := spine;
      ghost var t := Link(first, sp, previous, next, i, value, adds, removes);
      ghost var a, r := Adds(t), Removes(t);
      assert Mirrored(first, t, a, r);
      spine, adds, removes := t, a, r;
    }

    /** Unlink the window's node if it holds `value`. */
    method Remove(value: int) returns (result: bool)
      requires Valid() && InRange(value)
      modifies this, set n | n in spine
      ensures Valid()
      ensures result <==> value in old(Contents())
      ensures Contents() == Delete(old(Contents()), value)
      ensures TotalRemoves() == old(TotalRemoves()) + (if result then 1 else 0)
      ensures TotalAdds() == old(TotalAdds())
      ensures result ==> adds == Folded(old(adds), Window(Values(old(spine)), value, 1) - 1, 0)
      ensures result ==> removes == Folded(old(removes), Window(Values(old(spine)), value, 1) - 1, 1)
      ensures !result ==> unchanged(this) && unchanged(spine)
      ensures forall n :: n in spine ==> n in old(spine)
    {
      var previous, next, i := Locate(first, spine, value);
      result := RemoveAt(previous, next, i, value);
    }

    /** The locked window: unlink `next` if it holds `value`. */
    method RemoveAt(previous: Node, next: Node, ghost i: nat, value: int) returns (result: bool)
      requires Valid() && InRange(value)
      requires i + 1 == Window(Values(spine), value, 1) && previous == spine[i] && next == spine[i + 1]
      modifies this, previous
      ensures Valid()
      ensures result <==> value in old(Contents())
      ensures Contents() == Delete(old(Contents()), value)
      ensures TotalRemoves() == old(TotalRemoves()) + (if result then 1 else 0)
      ensures TotalAdds() == old(TotalAdds())
      ensures result ==> adds == Folded(old(adds), i, 0) && removes == Folded(old(removes), i, 1)
      ensures !result ==> unchanged(this) && unchanged(spine)
      ensures forall n :: n in spine ==> n in old(spine)
    {
      WindowFindsMember(Values(spine), value);
      if value == next.value {
        UnlinkAfter(previous, next, i, value);
        result := true;
      } else {
        RemoveRefinesDelete(Values(spine), value);
        result := false;
      }
    }

    /**
     * The mutation of a successful remove: unlink the node after
     * `previous`, which counts the remove and takes over the unlinked
     * node's counters.
     */
    method UnlinkAfter(previous: Node, next: Node, ghost i: nat, value: int)
      requires Valid() && InRange(value)
      requires i + 1 == Window(Values(spine), value, 1) && previous == spine[i] && next == spine[i + 1]
      requires next.value == value
      modifies this, previous
      ensures Valid()
      ensures Contents() == Delete(old(Contents()), value)
      ensures TotalRemoves() == old(TotalRemoves()) + 1 && TotalAdds() == old(TotalAdds())
      ensures adds == Folded(old(adds), i, 0) && removes == Folded(old(removes), i, 1)
      ensures forall n :: n in spine ==> n in old(spine)
    {
      ghost var sp := spine;
      ghost var t := UnlinkThenFold(first, sp, previous, next, i, value, adds, removes);
      ghost var a, r := Adds(t), Removes(t);
      assert Mirrored(first, t, a, r);
      spine, adds, removes := t, a, r;
    }

    /** Membership: the window's node holds `value`. */
    method Contains(value: int) returns (result: bool)
      requires Valid() && InRange(value)
      ensures result <==> value in Contents()
    {
      var previous, next, i := Locate(first, spine, value);
      WindowFindsMember(Values(spine), value);
      if value == next.value {
        return true;
      }
      return false;
    }

    /** The self-check: order, no duplicates, and 2 + (sum of adds) - (sum of removes) nodes. */
    method Validate() returns (ok: bool)
      requires Chain(first, spine)
      ensures ok <==> Sound(first, spine)
    {
      var ordered, size, totalAdds, totalRemoves := CheckCounts(first, spine);
      ok := ordered && 2 + totalAdds - totalRemoves == size;
    }
  }
}
