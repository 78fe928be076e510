/**
 * IntSetLinkedListLockFree: a sorted list whose successor fields are
 * (reference, mark) pairs changed only by compare-and-set. `remove` marks
 * the node it deletes in the node's own field, counts the remove, then
 * unlinks the node; `find` unlinks every marked node it passes; `add`
 * links a new node by a compare-and-set that expects its predecessor's
 * field to be unmarked. The counters `adds` and `rems` count successful
 * adds and removes.
 *
 * Nothing runs concurrently here, so a compare-and-set is a comparison
 * followed by a write. The list may still hold marked nodes that are
 * linked in (a remove whose unlink has not happened yet); the set it
 * represents is its live values, the unmarked interior ones.
 */
module LockFreeList {
  import opened IntSetSpec
  import opened Filters
  import opened LockFreeNodes
  import opened LockFreeUpdates
  import opened LockFreeWalk

  /** The empty list: the head sentinel, pointing unmarked to the tail sentinel. */
  method NewList() returns (head: Node, ghost spine: seq<Node>)
    ensures Chain(head, spine) && Increasing(Values(spine)) && NoneMarked(spine)
    ensures |spine| == 2 && fresh(spine[0]) && fresh(spine[1]) && Live(spine) == []
  {
    var max := new Node(MAX_VALUE, Successor(null, false));
    head := new Node(MIN_VALUE, Successor(max, false));
    spine := [head, max];
    assert Kept(Values(spine), Marks(spine), 1, 1) == [];
  }

  /**
   * One round of add's loop on the nodes: find the window; if its node
   * holds `value`, fail (`done` and not `result`); otherwise link a new
   * node after the window's first node, which succeeds (`done` and
   * `result`) unless that node's field is marked.
   */
  method AddRound(head: Node, ghost spine: seq<Node>, value: int) returns (done: bool, result: bool, ghost t: seq<Node>)
    requires Chain(head, spine) && Increasing(Values(spine)) && InRange(value)
    modifies set n | n in spine
    ensures Chain(head, t) && Increasing(Values(t))
    ensures done ==> (result <==> value !in old(Live(spine)))
    ensures result ==> done
    ensures Live(t) == if done then Insert(old(Live(spine)), value) else old(Live(spine))
    ensures |Live(t)| == |old(Live(spine))| + (if result then 1 else 0)
    ensures !done ==> |t| < |spine| && forall n :: n in t ==> n in spine
    ensures old(NoneMarked(spine)) ==> done && NoneMarked(t)
    ensures forall n :: n in t ==> n in spine || fresh(n)
  {
    ghost var none, m := NoneMarked(spine), Marks(spine);
    assert none ==> forall k :: 0 <= k < |m| ==> !m[k];
    var previous, next, t0, i, j := Find(head, spine, value);
    if none {
      NoneMarkedByMarks(t0, m);
    }
    if next.value == value {
      WindowLive(head, t0, i, value);
      return true, false, t0;
    }
    var ok;
    ok, t := LinkNew(head, t0, previous, next, i, value);
    done, result := ok, ok;
    if none {
      var m' := SpliceUnmarked(m, i);
      NoneMarkedByMarks(t, m');
    }
  }

  /** Splicing an unmarked field into marks that are all false leaves them all false. */
  lemma SpliceUnmarked(m: seq<bool>, i: nat) returns (m': seq<bool>)
    requires i < |m| && forall k :: 0 <= k < |m| ==> !m[k]
    ensures m' == m[..i + 1] + [false] + m[i + 1..]
    ensures forall k :: 0 <= k < |m'| ==> !m'[k]
  {
    m' := m[..i + 1] + [false] + m[i + 1..];
  }

  /**
   * One round of remove's loop on the nodes: find the window; if its node
   * holds `value`, mark that node's own field and unlink it. Both always
   * succeed with nothing running concurrently.
   */
  method RemoveRound(head: Node, ghost spine: seq<Node>, value: int) returns (result: bool, ghost t: seq<Node>)
    requires Chain(head, spine) && Increasing(Values(spine)) && InRange(value)
    modifies set n | n in spine
    ensures Chain(head, t) && Increasing(Values(t))
    ensures result <==> value in old(Live(spine))
    ensures Live(t) == Delete(old(Live(spine)), value)
    ensures |Live(t)| + (if result then 1 else 0) == |old(Live(spine))|
    ensures old(NoneMarked(spine)) ==> NoneMarked(t)
    ensures forall n :: n in t ==> n in spine
  {
    ghost var none, m := NoneMarked(spine), Marks(spine);
    assert none ==> forall k :: 0 <= k < |m| ==> !m[k];
    var previous, next, t0, i, j := Find(head, spine, value);
    WindowLive(head, t0, i, value);
    if next.value != value {
      if none {
        NoneMarkedByMarks(t0, m);
      }
      return false, t0;
    }
    LastNodeIsTail(head, t0, i + 1);
    t := DeleteNode(head, t0, previous, next, i, value);
    result := true;
    if none {
      var m' := CutUnmarked(m, i + 1);
      NoneMarkedByMarks(t, m');
    }
  }

  /**
   * remove's update on a window whose node holds `value`: mark that
   * node's own field (attemptMark), then unlink it with a CAS on its
   * unmarked predecessor's field. The live values lose `value`.
   */
  method DeleteNode(head: Node, ghost t: seq<Node>, previous: Node, next: Node, ghost i: nat, value: int)
    returns (ghost t': seq<Node>)
    requires Chain(head, t) && Increasing(Values(t)) && InRange(value)
    requires i + 2 < |t| && previous == t[i] && next == t[i + 1] && next.value == value
    requires i + 1 == Window(Values(t), value, 1)
    requires forall k :: 0 <= k <= i ==> !t[k].next.mark
    requires previous.next == Successor(next, false) && !next.next.mark
    modifies previous`next, next`next
    ensures Chain(head, t') && Increasing(Values(t'))
    ensures Live(t') == Delete(old(Live(t)), value)
    ensures |Live(t')| + 1 == |old(Live(t))|
    ensures Marks(t') == old(Marks(t))[..i + 1] + old(Marks(t))[i + 2..]
    ensures forall n :: n in t' ==> n in t
  {
    ghost var m0 := Marks(t);
    assert forall k :: 0 <= k <= i + 1 ==> !m0[k];
    assert Values(t)[i] < Values(t)[i + 1];
    var succ, snip := MarkNode(head, t, next, i);
    if !snip {
      assert false;
    }
    t' := UnlinkMarked(head, t, previous, next, succ, i, value, m0);
  }

  /** Cutting a field out of marks that are all false leaves them all false. */
  lemma CutUnmarked(m: seq<bool>, w: nat) returns (m': seq<bool>)
    requires w < |m| && forall k :: 0 <= k < |m| ==> !m[k]
    ensures m' == m[..w] + m[w + 1..]
    ensures forall k :: 0 <= k < |m'| ==> !m'[k]
  {
    m' := m[..w] + m[w + 1..];
  }

  class IntSetLinkedListLockFree {
    /** The head sentinel (m_first). */
    const first: Node
    /** The number of successful adds. */
    var adds: int
    /** The number of successful removes. */
    var rems: int
    /** The reachable nodes, head first and tail last. */
    ghost var spine: seq<Node>

    /**
     * Between operations: the list is ordered, and the counters differ by
     * the number of live values.
     */
    ghost predicate Valid()
      reads this, spine
    {
      Chain(first, spine) && Increasing(Values(spine)) && adds - rems == |Live(spine)|
    }

    /**
     * No node is marked either: nothing is half removed. Every operation
     * keeps this, so it holds between operations of a single thread.
     */
    ghost predicate Quiescent()
      reads this, spine
    {
      Valid() && NoneMarked(spine)
    }

    /** The set the list represents: its live values. */
    ghost function Contents(): seq<int>
      reads this, spine
      requires 2 <= |spine|
    {
      Live(spine)
    }

    /** The empty set: head -> (tail, unmarked), both counters zero. */
    constructor ()
      ensures Quiescent() && Contents() == [] && adds == 0 && rems == 0
      ensures |spine| == 2 && fresh(spine[0]) && fresh(spine[1])
    {
      var head, sp := NewList();
      first := head;
      spine := sp;
      adds, rems := 0, 0;
    }

    /**
     * add: repeat find and the linking CAS until the window holds `value`
     * or the CAS succeeds. The CAS fails only when find's window is an
     * unlinked node and the tail; the next round then starts from a
     * shorter list.
     */
    method Add(value: int) returns (result: bool)
      requires Valid() && InRange(value)
      modifies this, set n | n in spine
      ensures Valid()
      ensures result <==> value !in old(Contents())
      ensures Contents() == Insert(old(Contents()), value)
      ensures adds == old(adds) + (if result then 1 else 0) && rems == old(rems)
      ensures old(Quiescent()) ==> Quiescent()
      ensures forall n :: n in spine ==> n in old(spine) || fresh(n)
    {
      var done := false;
      result := false;
      while !done
        invariant Valid()
        invariant !done ==> Contents() == old(Contents()) && adds == old(adds) && rems == old(rems)
        invariant !done ==> forall n :: n in spine ==> n in old(spine)
        invariant !done && old(Quiescent()) ==> Quiescent()
        invariant done ==> (result <==> value !in old(Contents()))
        invariant done ==> Contents() == Insert(old(Contents()), value)
        invariant done ==> adds == old(adds) + (if result then 1 else 0) && rems == old(rems)
        invariant done && old(Quiescent()) ==> Quiescent()
        invariant done ==> forall n :: n in spine ==> n in old(spine) || fresh(n)
        decreases !done, |spine|
      {
        done, result := TryAdd(value);
      }
    }

    /**
     * One round of add's loop: find the window; if its node holds `value`,
     * fail; otherwise try to link a new node after the window's first node.
     */
    method TryAdd(value: int) returns (done: bool, result: bool)
      requires Valid() && InRange(value)
      modifies this, set n | n in spine
      ensures Valid()
      ensures done ==> (result <==> value !in old(Contents()))
      ensures Contents() == if done then Insert(old(Contents()), value) else old(Contents())
      ensures adds == old(adds) + (if done && result then 1 else 0) && rems == old(rems)
      ensures !done ==> |spine| < old(|spine|) && forall n :: n in spine ==> n in old(spine)
      ensures old(Quiescent()) ==> done && Quiescent()
      ensures forall n :: n in spine ==> n in old(spine) || fresh(n)
    {
      ghost var before, quiet := Contents(), Quiescent();
      ghost var t;
      done, result, t := AddRound(first, spine, value);
      ghost var marks := Marks(t);
      assert Live(t) == LiveOf(Values(t), marks) == if done then Insert(before, value) else before;
      assert quiet ==> NoneMarked(t);
      assert Chain(first, t) && Increasing(Values(t));
      spine := t;
      if result {
        adds := adds + 1;
      }
      assert Marks(t) == marks;
    }

    /**
     * remove: find the window; if its node holds `value`, mark that node
     * (logical deletion), count the remove and unlink it. The mark always
     * succeeds with nothing running concurrently, so the loop's `continue`
     * is never taken.
     */
    method Remove(value: int) returns (result: bool)
      requires Valid() && InRange(value)
      modifies this, set n | n in spine
      ensures Valid()
      ensures result <==> value in old(Contents())
      ensures Contents() == Delete(old(Contents()), value)
      ensures rems == old(rems) + (if result then 1 else 0) && adds == old(adds)
      ensures old(Quiescent()) ==> Quiescent()
      ensures forall n :: n in spine ==> n in old(spine)
    {
      var done := false;
      result := false;
      while !done
        invariant !done ==> unchanged(this) && unchanged(spine)
        invariant done ==> Valid()
        invariant done ==> (result <==> value in old(Contents()))
        invariant done ==> Contents() == Delete(old(Contents()), value)
        invariant done ==> rems == old(rems) + (if result then 1 else 0) && adds == old(adds)
        invariant done && old(Quiescent()) ==> Quiescent()
        invariant done ==> forall n :: n in spine ==> n in old(spine)
        decreases !done
      {
        done, result := TryRemove(value);
      }
    }

    /** One round of remove's loop; it always completes the remove. */
    method TryRemove(value: int) returns (done: bool, result: bool)
      requires Valid() && InRange(value)
      modifies this, set n | n in spine
      ensures done && Valid()
      ensures result <==> value in old(Contents())
      ensures Contents() == Delete(old(Contents()), value)
      ensures rems == old(rems) + (if result then 1 else 0) && adds == old(adds)
      ensures old(Quiescent()) ==> Quiescent()
      ensures forall n :: n in spine ==> n in old(spine)
    {
      ghost var before, quiet := Contents(), Quiescent();
      ghost var t;
      result, t := RemoveRound(first, spine, value);
      ghost var marks := Marks(t);
      assert Live(t) == LiveOf(Values(t), marks) == Delete(before, value);
      assert quiet ==> NoneMarked(t);
      assert Chain(first, t) && Increasing(Values(t));
      spine := t;
      if result {
        rems := rems + 1;
      }
      assert Marks(t) == marks;
      done := true;
    }

    /**
     * contains: walk from the head while the value is below `value`,
     * keeping the mark of the last field followed, and answer whether the
     * node reached holds `value` and that mark is false. The mark is the
     * predecessor's, not the node's own, so the answer is membership only
     * when nothing is marked.
     */
    method Contains(value: int) returns (result: bool)
      requires Chain(first, spine) && IsInt(value)
      ensures result == ContainsAsWritten(Values(spine), Marks(spine), value)
      ensures Quiescent() && InRange(value) ==> (result <==> value in Contents())
    {
      var node, marked, k := Scan(first, spine, value);
      result := node.value == value && !marked;
      if Quiescent() && InRange(value) {
        ContainsUnmarked(Values(spine), Marks(spine), value);
      }
    }

    /**
     * validate: walk over the nodes reached through unmarked fields, check
     * their order (and, by a set, that none repeats), and check that their
     * number is `adds - rems`. It is reached only when the field leading to
     * the tail is unmarked; otherwise the walk would read the tail's
     * missing field.
     */
    method Validate() returns (ok: bool)
      requires Chain(first, spine) && !spine[|spine| - 2].next.mark
      ensures ok <==> Increasing([MIN_VALUE] + Seen(spine)) && adds - rems == |Seen(spine)|
      ensures Quiescent() ==> ok
    {
      var ordered, size := CheckSeen(first, spine);
      ok := ordered && adds - rems == size;
      if Quiescent() {
        SeenUnmarked(Values(spine), Marks(spine));
        assert [MIN_VALUE] + Values(spine)[1..|spine| - 1] == Values(spine)[..|spine| - 1];
      }
    }
  }
}
