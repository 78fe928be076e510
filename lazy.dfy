/**
 * IntSetLinkedListLazyPerNodeLock: like the optimistic list, but a remove
 * first marks the node it deletes (logical deletion) and only then unlinks
 * it. Because a node leaves the list only after it has been marked,
 * `validateLogic` needs no walk: `previous` and `next` are still adjacent in
 * the list iff neither is marked and `previous` still points to `next`.
 * `contains` takes no lock and reports a marked node as absent; `validate`
 * skips marked nodes.
 *
 * The locks are no-ops here and nothing runs concurrently, so every retry
 * loop runs its body once.
 */
module LazyPerNodeLockList {
  import opened IntSetSpec
  import opened Counters
  import opened LazyList
  import opened LazyWalk

  class IntSetLinkedListLazyPerNodeLock {
    /** The head sentinel (m_first). */
    const first: Node
    /** The reachable nodes, head first and tail last. */
    ghost var spine: seq<Node>
    /** The reachable nodes' `add` counters, in list order. */
    ghost var adds: seq<int>
    /** The reachable nodes' `remove` counters, in list order. */
    ghost var removes: seq<int>

    /** Between operations the reachable nodes form a sound list. */
    ghost predicate Valid()
      reads this, spine
    {
      Mirrored(first, spine, adds, removes)
    }

    /** The set the list represents: the values strictly between the sentinels. */
    ghost function Contents(): seq<int>
      reads this
      requires 2 <= |spine|
    {
      Interior(Values(spine))
    }

    /** The sum of the reachable nodes' add counters. */
    ghost function TotalAdds(): int
      reads this
    {
      Sum(adds)
    }

    /** The sum of the reachable nodes' remove counters. */
    ghost function TotalRemoves(): int
      reads this
    {
      Sum(removes)
    }

    /** The empty set: head -> tail, both unmarked, every counter zero. */
    constructor ()
      ensures Valid()
      ensures |spine| == 2 && Contents() == [] && fresh(spine[0]) && fresh(spine[1])
      ensures TotalAdds() == 0 && TotalRemoves() == 0
    {
      var head, sp := NewList();
      first := head;
      spine := sp;
      adds := Adds(sp);
      removes := Removes(sp);
    }

    /** `validateLogic(previous, next)`: neither node is marked and `previous` points to `next`. */
    predicate ValidateLogic(previous: Node, next: Node)
      reads previous, next
    {
      !previous.marked && !next.marked && previous.next == next
    }

    /**
     * Between operations, for two reachable nodes, `validateLogic` holds
     * exactly when the second follows the first.
     */
    lemma ValidateLogicMeansAdjacent(previous: Node, next: Node)
      requires Valid() && previous in spine && next in spine
      ensures ValidateLogic(previous, next)
          <==> exists i :: 0 <= i < |spine| - 1 && previous == spine[i] && next == spine[i + 1]
    {
      var i :| 0 <= i < |spine| && spine[i] == previous;
      if ValidateLogic(previous, next) {
        assert i < |spine| - 1;
        assert previous == spine[i] && next == spine[i + 1];
      }
    }

    /** add: repeat the round until it succeeds, which the first time it does. */
    method Add(value: int) returns (result: bool)
      requires Valid() && InRange(value)
      modifies this, set n | n in spine
      ensures Valid()
      ensures result <==> value !in old(Contents())
      ensures Contents() == Insert(old(Contents()), value)
      ensures TotalAdds() == old(TotalAdds()) + (if result then 1 else 0)
      ensures TotalRemoves() == old(TotalRemoves())
      ensures result ==> adds == Linked(old(adds), Window(Values(old(spine)), value, 1) - 1, 1)
      ensures result ==> removes == Linked(old(removes), Window(Values(old(spine)), value, 1) - 1, 0)
      ensures !result ==> unchanged(this) && unchanged(spine)
      ensures forall n :: n in spine ==> n in old(spine) || fresh(n)
    {
      var done := false;
      result := false;
      while !done
        invariant !done ==> unchanged(this) && unchanged(spine)
        invariant done ==> Valid()
        invariant done ==> (result <==> value !in old(Contents()))
        invariant done ==> Contents() == Insert(old(Contents()), value)
        invariant done ==> TotalAdds() == old(TotalAdds()) + (if result then 1 else 0)
        invariant done ==> TotalRemoves() == old(TotalRemoves())
        invariant done && result ==> adds == Linked(old(adds), Window(Values(old(spine)), value, 1) - 1, 1)
        invariant done && result ==> removes == Linked(old(removes), Window(Values(old(spine)), value, 1) - 1, 0)
        invariant done && !result ==> unchanged(this) && unchanged(spine)
        invariant done ==> forall n :: n in spine ==> n in old(spine) || fresh(n)
        decreases !done
      {
        done, result := TryAdd(value);
      }
    }

    /**
     * One round of add's retry loop: an unlocked traversal finds the window;
     * if it passes `validateLogic` (which, with nothing running
     * concurrently, it always does), link a new unmarked node holding
     * `value` into it unless it already holds `value`.
     */
    method TryAdd(value: int) returns (done: bool, result: bool)
      requires Valid() && InRange(value)
      modifies this, set n | n in spine
      ensures done && Valid()
      ensures result <==> value !in old(Contents())
      ensures Contents() == Insert(old(Contents()), value)
      ensures TotalAdds() == old(TotalAdds()) + (if result then 1 else 0)
      ensures TotalRemoves() == old(TotalRemoves())
      ensures result ==> adds == Linked(old(adds), Window(Values(old(spine)), value, 1) - 1, 1)
      ensures result ==> removes == Linked(old(removes), Window(Values(old(spine)), value, 1) - 1, 0)
      ensures !result ==> unchanged(this) && unchanged(spine)
      ensures forall n :: n in spine ==> n in old(spine) || fresh(n)
    {
      var previous, next, i := Locate(first, spine, value);
      assert !previous.marked && !next.marked;
      if ValidateLogic(previous, next) {
        result := AddAt(previous, next, i, value);
        done := true;
      } else {
        assert false;
      }
    }

    /** A validated window: link a new node holding `value` into it unless `next` holds `value`. */
    method AddAt(previous: Node, next: Node, ghost i: nat, value: int) returns (result: bool)
      requires Valid() && InRange(value)
      requires i + 1 == Window(Values(spine), value, 1) && previous == spine[i] && next == spine[i + 1]
      modifies this, previous
      ensures Valid()
      ensures result <==> value !in old(Contents())
      ensures Contents() == Insert(old(Contents()), value)
      ensures TotalAdds() == old(TotalAdds()) + (if result then 1 else 0)
      ensures TotalRemoves() == old(TotalRemoves())
      ensures result ==> adds == Linked(old(adds), i, 1) && removes == Linked(old(removes), i, 0)
      ensures !result ==> unchanged(this) && unchanged(spine)
      ensures forall n :: n in spine ==> n in old(spine) || fresh(n)
    {
      WindowFindsMember(Values(spine), value);
      if value == next.value {
        AddRefinesInsert(Values(spine), value);
        result := false;
      } else {
        LinkAfter(previous, next, i, value);
        result := true;
      }
    }

    /** The mutation of a successful add: link an unmarked node after `previous`, which counts the add. */
    method LinkAfter(previous: Node, next: Node, ghost i: nat, value: int)
      requires Valid() && InRange(value)
      requires i + 1 == Window(Values(spine), value, 1) && previous == spine[i] && next == spine[i + 1]
      requires next.value != value
      modifies this, previous
      ensures Valid()
      ensures Contents() == Insert(old(Contents()), value)
      ensures TotalAdds() == old(TotalAdds()) + 1 && TotalRemoves() == old(TotalRemoves())
      ensures adds == Linked(old(adds), i, 1) && removes == Linked(old(removes), i, 0)
      ensures forall n :: n in spine ==> n in old(spine) || fresh(n)
    {
      ghost var sp := spine;
      ghost var t := Link(first, sp, previous, next, i, value, adds, removes);
      ghost var a, r := Adds(t), Removes(t);
      assert Mirrored(first, t, a, r);
      spine, adds, removes := t, a, r;
    }

    /** remove: repeat the round until it succeeds, which the first time it does. */
    method Remove(value: int) returns (result: bool)
      requires Valid() && InRange(value)
      modifies this, set n | n in spine
      ensures Valid()
      ensures result <==> value in old(Contents())
      ensures Contents() == Delete(old(Contents()), value)
      ensures TotalRemoves() == old(TotalRemoves()) + (if result then 1 else 0)
      ensures TotalAdds() == old(TotalAdds())
      ensures result ==> adds == Folded(old(adds), Window(Values(old(spine)), value, 1) - 1, 0)
      ensures result ==> removes == Folded(old(removes), Window(Values(old(spine)), value, 1) - 1, 1)
      ensures !result ==> unchanged(this) && unchanged(spine)
      ensures forall n :: n in spine ==> n in old(spine)
    {
      var done := false;
      result := false;
      while !done
        invariant !done ==> unchanged(this) && unchanged(spine)
        invariant done ==> Valid()
        invariant done ==> (result <==> value in old(Contents()))
        invariant done ==> Contents() == Delete(old(Contents()), value)
        invariant done ==> TotalRemoves() == old(TotalRemoves()) + (if result then 1 else 0)
        invariant done ==> TotalAdds() == old(TotalAdds())
        invariant done && result ==> adds == Folded(old(adds), Window(Values(old(spine)), value, 1) - 1, 0)
        invariant done && result ==> removes == Folded(old(removes), Window(Values(old(spine)), value, 1) - 1, 1)
        invariant done && !result ==> unchanged(this) && unchanged(spine)
        invariant done ==> forall n :: n in spine ==> n in old(spine)
        decreases !done
      {
        done, result := TryRemove(value);
      }
    }

    /**
     * One round of remove's retry loop: an unlocked traversal finds the
     * window; if it passes `validateLogic` (which, with nothing running
     * concurrently, it always does), mark and unlink the window's node if
     * it holds `value`.
     */
    method TryRemove(value: int) returns (done: bool, result: bool)
      requires Valid() && InRange(value)
      modifies this, set n | n in spine
      ensures done && Valid()
      ensures result <==> value in old(Contents())
      ensures Contents() == Delete(old(Contents()), value)
      ensures TotalRemoves() == old(TotalRemoves()) + (if result then 1 else 0)
      ensures TotalAdds() == old(TotalAdds())
      ensures result ==> adds == Folded(old(adds), Window(Values(old(spine)), value, 1) - 1, 0)
      ensures result ==> removes == Folded(old(removes), Window(Values(old(spine)), value, 1) - 1, 1)
      ensures !result ==> unchanged(this) && unchanged(spine)
      ensures forall n :: n in spine ==> n in old(spine)
    {
      var previous, next, i := Locate(first, spine, value);
      assert !previous.marked && !next.marked;
      if ValidateLogic(previous, next) {
        result := RemoveAt(previous, next, i, value);
        done := true;
      } else {
        assert false;
      }
    }

    /** A validated window: unlink `next` if it holds `value`. */
    method RemoveAt(previous: Node, next: Node, ghost i: nat, value: int) returns (result: bool)
      requires Valid() && InRange(value)
      requires i + 1 == Window(Values(spine), value, 1) && previous == spine[i] && next == spine[i + 1]
      modifies this, previous, next
      ensures Valid()
      ensures result <==> value in old(Contents())
      ensures Contents() == Delete(old(Contents()), value)
      ensures TotalRemoves() == old(TotalRemoves()) + (if result then 1 else 0)
      ensures TotalAdds() == old(TotalAdds())
      ensures result ==> adds == Folded(old(adds), i, 0) && removes == Folded(old(removes), i, 1)
      ensures !result ==> unchanged(this) && unchanged(spine)
      ensures forall n :: n in spine ==> n in old(spine)
    {
      WindowFindsMember(Values(spine), value);
      if value == next.value {
        UnlinkAfter(previous, next, i, value);
        result := true;
      } else {
        RemoveRefinesDelete(Values(spine), value);
        result := false;
      }
    }

    /**
     * The mutation of a successful remove: mark the node after `previous`,
     * fold its counters into `previous`'s, unlink it, and count the remove
     * in `previous`.
     */
    method UnlinkAfter(previous: Node, next: Node, ghost i: nat, value: int)
      requires Valid() && InRange(value)
      requires i + 1 == Window(Values(spine), value, 1) && previous == spine[i] && next == spine[i + 1]
      requires next.value == value
      modifies this, previous, next
      ensures Valid() && next.marked
      ensures Contents() == Delete(old(Contents()), value)
      ensures TotalRemoves() == old(TotalRemoves()) + 1 && TotalAdds() == old(TotalAdds())
      ensures adds == Folded(old(adds), i, 0) && removes == Folded(old(removes), i, 1)
      ensures forall n :: n in spine ==> n in old(spine)
    {
      ghost var sp := spine;
      ghost var t := MarkThenUnlink(first, sp, previous, next, i, value, adds, removes);
      ghost var a, r := Adds(t), Removes(t);
      assert Mirrored(first, t, a, r);
      spine, adds, removes := t, a, r;
    }

    /**
     * The unlocked `contains`: walk to the first node whose value is at
     * least `value` and report whether it holds `value` and is unmarked.
     * Between operations that is membership; it also answers true for
     * either sentinel's value.
     */
    method Contains(value: int) returns (result: bool)
      requires Chain(first, spine) && IsInt(value)
      ensures result <==> exists k :: 0 <= k < |spine| && spine[k].value == value && !spine[k].marked
                                      && forall j :: 0 <= j < k ==> spine[j].value < value
      ensures Valid() ==> (result <==> value in Values(spine))
      ensures Valid() && InRange(value) ==> (result <==> value in Contents())
    {
      var node, k := Scan(first, spine, value);
      result := node.value == value && !node.marked;
      if result {
        assert Values(spine)[k] == value;
      } else {
        forall k' | 0 <= k' < |spine| && spine[k'].value == value && !spine[k'].marked
          ensures exists j :: 0 <= j < k' && spine[j].value >= value
        {
          assert k < k' && spine[k].value >= value;
        }
      }
      if Valid() && value in Values(spine) {
        var j :| 0 <= j < |spine| && Values(spine)[j] == value;
        assert Values(spine)[k] == node.value;
        assert !(j < k) && !(k < j);
      }
    }

    /**
     * The self-check: walk over the unmarked nodes, check their order, and
     * check that their number is 2 + (sum of their adds) - (sum of their
     * removes), the tail's counters left out. It is reached only with an
     * unmarked tail, which was never removed.
     */
    method Validate() returns (ok: bool)
      requires Chain(first, spine) && !spine[|spine| - 1].marked
      ensures ok <==> Increasing(Values(Visible(spine)))
                      && 2 + Sum(Adds(Counted(spine))) - Sum(Removes(Counted(spine))) == |Visible(spine)|
      ensures (NoneMarked(spine) && spine[|spine| - 1].add == 0 && spine[|spine| - 1].remove == 0)
              ==> (ok <==> Increasing(Values(spine)) && Balanced(spine))
      ensures Valid() ==> ok
    {
      var ordered, size, totalAdds, totalRemoves := CheckVisible(first, spine);
      ok := ordered && 2 + totalAdds - totalRemoves == size;
      if NoneMarked(spine) && spine[|spine| - 1].add == 0 && spine[|spine| - 1].remove == 0 {
        VisibleAll(spine);
      }
    }
  }
}
