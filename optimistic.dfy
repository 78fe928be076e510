/**
 * IntSetLinkedListOptimisticPerNodeLock: the traversal takes no locks;
 * once it has found the window it locks `previous` and `next`, checks with
 * `validateLogic` that `previous` is still reachable and still points to
 * `next`, and retries the whole operation from the head if not. The locks
 * are no-ops here, and with nothing else running the check always
 * succeeds, so each retry loop runs its body once.
 *
 * The counters work as in PerNodeLock, except that remove folds the
 * removed node's counters into its predecessor before it unlinks the node.
 */
module OptimisticPerNodeLockList {
  import opened IntSetSpec
  import opened Counters
  import opened CountingList

  class IntSetLinkedListOptimisticPerNodeLock {
    /** The head sentinel (m_first). */
    const first: Node
    /** The reachable nodes, head first and tail last. */
    ghost var spine: seq<Node>
    /** The reachable nodes' `add` counters, in list order. */
    ghost var adds: seq<int>
    /** The reachable nodes' `remove` counters, in list order. */
    ghost var removes: seq<int>

    /** The invariant `validate()` asserts, plus the shape its walk relies on. */
    ghost predicate Valid()
      reads this, spine
    {
      Mirrored(first, spine, adds, removes)
    }

    /** The set the list represents: the values strictly between the sentinels. */
    ghost function Contents(): seq<int>
      reads this
      requires 2 <= |spine|
    {
      Interior(Values(spine))
    }

    /** The sum of the reachable nodes' add counters. */
    ghost function TotalAdds(): int
      reads this
    {
      Sum(adds)
    }

    /** The sum of the reachable nodes' remove counters. */
    ghost function TotalRemoves(): int
      reads this
    {
      Sum(removes)
    }

    /** The empty set: head -> tail, every counter zero. */
    constructor ()
      ensures Valid()
      ensures |spine| == 2 && Contents() == [] && fresh(spine[0]) && fresh(spine[1])
      ensures TotalAdds() == 0 && TotalRemoves() == 0
    {
      var head;
      ghost var sp;
      head, sp := NewList();
      first := head;
      spine := sp;
      adds := Adds(sp);
      removes := Removes(sp);
    }

    /**
     * Retry until the window found by an unlocked traversal passes
     * `validateLogic`; then link a new node holding `value` into it unless
     * it already holds `value`.
     */
    method Add(value: int) returns (result: bool)
      requires Valid() && InRange(value)
      modifies this, set n | n in spine
      ensures Valid()
      ensures result <==> value !in old(Contents())
      ensures Contents() == Insert(old(Contents()), value)
      ensures TotalAdds() == old(TotalAdds()) + (if result then 1 else 0)
      ensures TotalRemoves() == old(TotalRemoves())
      ensures result ==> adds == Linked(old(adds), Window(Values(old(spine)), value, 1) - 1, 1)
      ensures result ==> removes == Linked(old(removes), Window(Values(old(spine)), value, 1) - 1, 0)
      ensures !result ==> unchanged(this) && unchanged(spine)
      ensures forall n :: n in spine ==> n in old(spine) || fresh(n)
    {
      var done := false;
      result := false;
      while !done
        invariant !done ==> unchanged(this) && unchanged(spine)
        invariant done ==> Valid() && (result <==> value !in old(Contents()))
        invariant done ==> Contents() == Insert(old(Contents()), value)
        invariant done ==> TotalAdds() == old(TotalAdds()) + (if result then 1 else 0)
        invariant done ==> TotalRemoves() == old(TotalRemoves())
        invariant done && result ==> adds == Linked(old(adds), Window(Values(old(spine)), value, 1) - 1, 1)
        invariant done && result ==> removes == Linked(old(removes), Window(Values(old(spine)), value, 1) - 1, 0)
        invariant done && !result ==> unchanged(this) && unchanged(spine)
        invariant done ==> forall n :: n in spine ==> n in old(spine) || fresh(n)
        decreases !done
      {
        done, result := TryAdd(value);
      }
    }

    /**
     * One round of add's retry loop: an unlocked traversal finds the window;
     * if it passes `validateLogic` (which, with nothing running
     * concurrently, it always does), link a new node holding `value` into it
     * unless it already holds `value`.
     */
    method TryAdd(value: int) returns (done: bool, result: bool)
      requires Valid() && InRange(value)
      modifies this, set n | n in spine
      ensures done && Valid()
      ensures result <==> value !in old(Contents())
      ensures Contents() == Insert(old(Contents()), value)
      ensures TotalAdds() == old(TotalAdds()) + (if result then 1 else 0)
      ensures TotalRemoves() == old(TotalRemoves())
      ensures result ==> adds == Linked(old(adds), Window(Values(old(spine)), value, 1) - 1, 1)
      ensures result ==> removes == Linked(old(removes), Window(Values(old(spine)), value, 1) - 1, 0)
      ensures !result ==> unchanged(this) && unchanged(spine)
      ensures forall n :: n in spine ==> n in old(spine) || fresh(n)
    {
      var previous, next, i := Locate(first, spine, value);
      var valid := ValidateLogic(previous, next);
      if valid {
        result := AddAt(previous, next, i, value);
        done := true;
      } else {
        assert false;
      }
    }

    /** A validated window: link a new node holding `value` into it unless `next` holds `value`. */
    method AddAt(previous: Node, next: Node, ghost i: nat, value: int) returns (result: bool)
      requires Valid() && InRange(value)
      requires i + 1 == Window(Values(spine), value, 1) && previous == spine[i] && next == spine[i + 1]
      modifies this, previous
      ensures Valid()
      ensures result <==> value !in old(Contents())
      ensures Contents() == Insert(old(Contents()), value)
      ensures TotalAdds() == old(TotalAdds()) + (if result then 1 else 0)
      ensures TotalRemoves() == old(TotalRemoves())
      ensures result ==> adds == Linked(old(adds), i, 1) && removes == Linked(old(removes), i, 0)
      ensures !result ==> unchanged(this) && unchanged(spine)
      ensures forall n :: n in spine ==> n in old(spine) || fresh(n)
    {
      WindowFindsMember(Values(spine), value);
      if value == next.value {
        AddRefinesInsert(Values(spine), value);
        result := false;
      } else {
        LinkAfter(previous, next, i, value);
        result := true;
      }
    }

    /** The mutation of a successful add: link a node after `previous`, which counts the add. */
    method LinkAfter(previous: Node, next: Node, ghost i: nat, value: int)
      requires Valid() && InRange(value)
      requires i + 1 == Window(Values(spine), value, 1) && previous == spine[i] && next == spine[i + 1]
      requires next.value != value
      modifies this, previous
      ensures Valid()
      ensures Contents() == Insert(old(Contents()), value)
      ensures TotalAdds() == old(TotalAdds()) + 1 && TotalRemoves() == old(TotalRemoves())
      ensures adds == Linked(old(adds), i, 1) && removes == Linked(old(removes), i, 0)
      ensures forall n :: n in spine ==> n in old(spine) || fresh(n)
    {
      ghost var sp := spine;
      ghost var t := Link(first, sp, previous, next, i, value, adds, removes);
      ghost var a, r := Adds(t), Removes(t);
      assert Mirrored(first, t, a, r);
      spine, adds, removes := t, a, r;
    }

    /**
     * Retry until the window found by an unlocked traversal passes
     * `validateLogic`; then unlink the window's node if it holds `value`.
     */
    method Remove(value: int) returns (result: bool)
      requires Valid() && InRange(value)
      modifies this, set n | n in spine
      ensures Valid()
      ensures result <==> value in old(Contents())
      ensures Contents() == Delete(old(Contents()), value)
      ensures TotalRemoves() == old(TotalRemoves()) + (if result then 1 else 0)
      ensures TotalAdds() == old(TotalAdds())
      ensures result ==> adds == Folded(old(adds), Window(Values(old(spine)), value, 1) - 1, 0)
      ensures result ==> removes == Folded(old(removes), Window(Values(old(spine)), value, 1) - 1, 1)
      ensures !result ==> unchanged(this) && unchanged(spine)
      ensures forall n :: n in spine ==> n in old(spine)
    {
      var done := false;
      result := false;
      while !done
        invariant !done ==> unchanged(this) && unchanged(spine)
        invariant done ==> Valid() && (result <==> value in old(Contents()))
        invariant done ==> Contents() == Delete(old(Contents()), value)
        invariant done ==> TotalRemoves() == old(TotalRemoves()) + (if result then 1 else 0)
        invariant done ==> TotalAdds() == old(TotalAdds())
        invariant done && result ==> adds == Folded(old(adds), Window(Values(old(spine)), value, 1) - 1, 0)
        invariant done && result ==> removes == Folded(old(removes), Window(Values(old(spine)), value, 1) - 1, 1)
        invariant done && !result ==> unchanged(this) && unchanged(spine)
        invariant done ==> forall n :: n in spine ==> n in old(spine)
        decreases !done
      {
        done, result := TryRemove(value);
      }
    }

    /**
     * One round of remove's retry loop: an unlocked traversal finds the
     * window; if it passes `validateLogic` (which, with nothing running
     * concurrently, it always does), unlink the window's node if it holds
     * `value`.
     */
    method TryRemove(value: int) returns (done: bool, result: bool)
      requires Valid() && InRange(value)
      modifies this, set n | n in spine
      ensures done && Valid()
      ensures result <==> value in old(Contents())
      ensures Contents() == Delete(old(Contents()), value)
      ensures TotalRemoves() == old(TotalRemoves()) + (if result then 1 else 0)
      ensures TotalAdds() == old(TotalAdds())
      ensures result ==> adds == Folded(old(adds), Window(Values(old(spine)), value, 1) - 1, 0)
      ensures result ==> removes == Folded(old(removes), Window(Values(old(spine)), value, 1) - 1, 1)
      ensures !result ==> unchanged(this) && unchanged(spine)
      ensures forall n :: n in spine ==> n in old(spine)
    {
      var previous, next, i := Locate(first, spine, value);
      var valid := ValidateLogic(previous, next);
      if valid {
        result := RemoveAt(previous, next, i, value);
        done := true;
      } else {
        assert false;
      }
    }

    /** A validated window: unlink `next` if it holds `value`. */
    method RemoveAt(previous: Node, next: Node, ghost i: nat, value: int) returns (result: bool)
      requires Valid() && InRange(value)
      requires i + 1 == Window(Values(spine), value, 1) && previous == spine[i] && next == spine[i + 1]
      modifies this, previous
      ensures Valid()
      ensures result <==> value in old(Contents())
      ensures Contents() == Delete(old(Contents()), value)
      ensures TotalRemoves() == old(TotalRemoves()) + (if result then 1 else 0)
      ensures TotalAdds() == old(TotalAdds())
      ensures result ==> adds == Folded(old(adds), i, 0) && removes == Folded(old(removes), i, 1)
      ensures !result ==> unchanged(this) && unchanged(spine)
      ensures forall n :: n in spine ==> n in old(spine)
    {
      WindowFindsMember(Values(spine), value);
      if value == next.value {
        UnlinkAfter(previous, next, i, value);
        result := true;
      } else {
        RemoveRefinesDelete(Values(spine), value);
        result := false;
      }
    }

    /**
     * The mutation of a successful remove: unlink the node after
     * `previous`, which counts the remove and takes over the unlinked
     * node's counters.
     */
    method UnlinkAfter(previous: Node, next: Node, ghost i: nat, value: int)
      requires Valid() && InRange(value)
      requires i + 1 == Window(Values(spine), value, 1) && previous == spine[i] && next == spine[i + 1]
      requires next.value == value
      modifies this, previous
      ensures Valid()
      ensures Contents() == Delete(old(Contents()), value)
      ensures TotalRemoves() == old(TotalRemoves()) + 1 && TotalAdds() == old(TotalAdds())
      ensures adds == Folded(old(adds), i, 0) && removes == Folded(old(removes), i, 1)
      ensures forall n :: n in spine ==> n in old(spine)
    {
      ghost var sp := spine;
      ghost var t := FoldThenUnlink(first, sp, previous, next, i, value, adds, removes);
      ghost var a, r := Adds(t), Removes(t);
      assert Mirrored(first, t, a, r);
      spine, adds, removes := t, a, r;
    }

    /** Retry until the window passes `validateLogic`; then report whether its node holds `value`. */
    method Contains(value: int) returns (result: bool)
      requires Valid() && InRange(value)
      ensures result <==> value in Contents()
    {
      var done := false;
      result := false;
      while !done
        invariant done ==> (result <==> value in Contents())
        decreases !done
      {
        var previous, next, i := Locate(first, spine, value);
        var valid := ValidateLogic(previous, next);
        if valid {
          WindowFindsMember(Values(spine), value);
          result := value == next.value;
          done := true;
        }
      }
    }

    /**
     * `validateLogic(previous, next)`: walk from the head over the nodes
     * whose value is at most `previous`'s and report whether one of them is
     * `previous` itself and points to `next`. In a strictly increasing
     * chain that is exactly "previous is reachable and its successor is
     * next". The source walk runs off the tail when `previous` holds
     * MAX_VALUE, so the model requires a smaller value.
     */
    method ValidateLogic(previous: Node, next: Node) returns (r: bool)
      requires Chain(first, spine) && Increasing(Values(spine))
      requires previous.value < MAX_VALUE
      ensures r <==> previous in spine && previous.next == next
    {
      var node := first;
      ghost var k := 0;
      while node.value <= previous.value
        invariant k < |spine| && node == spine[k]
        invariant forall j :: 0 <= j < k && spine[j] == previous ==> previous.next != next
        decreases |spine| - k
      {
        if node == previous && node.next == next {
          return true;
        }
        assert k < |spine| - 1;
        node := node.next;
        k := k + 1;
      }
      forall j | k <= j < |spine| ensures spine[j] != previous {
        if j > k {
          assert Values(spine)[k] < Values(spine)[j];
        }
      }
      r := false;
    }

    /** The self-check: order, no duplicates, and 2 + (sum of adds) - (sum of removes) nodes. */
    method Validate() returns (ok: bool)
      requires Chain(first, spine)
      ensures ok <==> Sound(first, spine)
    {
      var ordered, size, totalAdds, totalRemoves := CheckCounts(first, spine);
      ok := ordered && 2 + totalAdds - totalRemoves == size;
    }
  }
}
