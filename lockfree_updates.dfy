/**
 * The updates of IntSetLinkedListLockFree: what linking a new node in and
 * marking then unlinking a node do to the live values, first on values and
 * marks, then as heap operations on the nodes.
 */
module LockFreeUpdates {
  import opened IntSetSpec
  import opened Filters
  import opened LockFreeNodes

  // ---------------------------------------------------------------------------
  // Live values around a window
  // ---------------------------------------------------------------------------

  /** With no mark among the interior positions before `w`, the live values are those values, then the live ones from `w` on. */
  lemma LiveAround(vals: seq<int>, marks: seq<bool>, w: nat)
    requires |marks| == |vals| && 1 <= w < |vals|
    requires forall k :: 1 <= k < w ==> !marks[k]
    ensures LiveOf(vals, marks) == vals[1..w] + Kept(vals, marks, w, |vals| - 1)
  {
    KeptSplit(vals, marks, 1, w, |vals| - 1);
    KeptAll(vals, marks, 1, w);
  }

  /** Concatenation regrouped, in a context small enough to be cheap. */
  lemma Regroup<T>(a: seq<T>, x: seq<T>, b: seq<T>)
    ensures a + (x + b) == a + x + b
  {
  }

  /** In an increasing list, whatever survives filtering from `lo` on is above any `x` below the value at `lo`. */
  lemma KeptAbove(vals: seq<int>, marks: seq<bool>, lo: nat, hi: nat, x: int)
    requires |marks| == |vals| && lo <= hi <= |vals| && Increasing(vals)
    requires lo < hi ==> x < vals[lo]
    ensures forall k :: 0 <= k < |Kept(vals, marks, lo, hi)| ==> x < Kept(vals, marks, lo, hi)[k]
  {
    var b := Kept(vals, marks, lo, hi);
    KeptFrom(vals, marks, lo, hi);
    forall k | 0 <= k < |b| ensures x < b[k] {
      assert b[k] in b;
      var d :| 0 <= d < hi - lo && vals[lo..hi][d] == b[k];
      assert vals[lo + d] == b[k];
    }
  }

  /**
   * The window find returns: `w` is the first position from 1 on holding
   * at least `v`, nothing before it is marked, and its node is unmarked
   * unless it is the tail. Then `v` is live exactly when the window holds
   * it, so adding a present value and removing an absent one change
   * nothing.
   */
  lemma WindowFindsLive(vals: seq<int>, marks: seq<bool>, v: int, w: nat)
    requires |marks| == |vals| && Framed(vals) && InRange(v)
    requires w == Window(vals, v, 1)
    requires forall k :: 1 <= k < w ==> !marks[k]
    requires w == |vals| - 1 || !marks[w]
    ensures v in LiveOf(vals, marks) <==> vals[w] == v
    ensures vals[w] == v ==> Insert(LiveOf(vals, marks), v) == LiveOf(vals, marks)
    ensures vals[w] != v ==> Delete(LiveOf(vals, marks), v) == LiveOf(vals, marks)
  {
    var n := |vals|;
    var b := WindowParts(vals, marks, v, w);
    var a := vals[1..w];
    if w < n - 1 {
      if vals[w] == v {
        InsertFound(a, b, v);
      } else {
        assert v !in a && v !in b;
        DeleteAbsent(a + [vals[w]] + b, v);
      }
    } else {
      DeleteAbsent(a, v);
    }
  }

  /**
   * The live values around the window: the unmarked values below `v`, then
   * the window's value and the live values after it, which all exceed it.
   */
  lemma WindowParts(vals: seq<int>, marks: seq<bool>, v: int, w: nat) returns (b: seq<int>)
    requires |marks| == |vals| && Framed(vals) && InRange(v)
    requires w == Window(vals, v, 1)
    requires forall k :: 1 <= k < w ==> !marks[k]
    requires w == |vals| - 1 || !marks[w]
    ensures 1 <= w < |vals| && v <= vals[w] && (w == |vals| - 1 ==> v < vals[w])
    ensures forall k :: 1 <= k < w ==> vals[k] < v
    ensures w < |vals| - 1 ==> b == Kept(vals, marks, w + 1, |vals| - 1)
    ensures w < |vals| - 1 ==> LiveOf(vals, marks) == vals[1..w] + [vals[w]] + b
    ensures forall k :: 0 <= k < |b| ==> vals[w] < b[k]
    ensures w == |vals| - 1 ==> LiveOf(vals, marks) == vals[1..w]
  {
    var n := |vals|;
    LiveAround(vals, marks, w);
    WindowBounds(vals, v, 1);
    b := [];
    if w < n - 1 {
      b := Kept(vals, marks, w + 1, n - 1);
      KeptSplit(vals, marks, w, w + 1, n - 1);
      assert Kept(vals, marks, w, w + 1) == [vals[w]];
      Regroup(vals[1..w], [vals[w]], b);
      KeptAbove(vals, marks, w + 1, n - 1, vals[w]);
    }
  }

  /** The live values after linking `v` in at position `w`, with a false mark, nothing marked before it. */
  lemma LinkShape(vals: seq<int>, marks: seq<bool>, w: nat, v: int)
    requires |marks| == |vals| && 1 <= w < |vals|
    requires forall k :: 1 <= k < w ==> !marks[k]
    ensures LiveOf(vals[..w] + [v] + vals[w..], marks[..w] + [false] + marks[w..])
            == vals[1..w] + [v] + Kept(vals, marks, w, |vals| - 1)
  {
    var n := |vals|;
    var vs, ms := vals[..w] + [v] + vals[w..], marks[..w] + [false] + marks[w..];
    assert LiveOf(vs, ms) == Kept(vs, ms, 1, n);
    KeptSplit(vs, ms, 1, w + 1, n);
    assert Kept(vs, ms, 1, w + 1) == Kept(vs, ms, 1, w) + [v];
    LinkBefore(vals, marks, w, v, vs, ms);
    LinkBeyond(vals, marks, w, v, vs, ms);
  }

  /** Before the new node, the unmarked interior values are kept as they are. */
  lemma LinkBefore(vals: seq<int>, marks: seq<bool>, w: nat, v: int, vs: seq<int>, ms: seq<bool>)
    requires |marks| == |vals| && 1 <= w < |vals|
    requires forall k :: 1 <= k < w ==> !marks[k]
    requires vs == vals[..w] + [v] + vals[w..] && ms == marks[..w] + [false] + marks[w..]
    ensures Kept(vs, ms, 1, w) == vals[1..w]
  {
    KeptShift(vals, marks, 1, w, vs, ms, 1, w);
    KeptAll(vals, marks, 1, w);
  }

  /** Beyond the new node, every position has moved up by one. */
  lemma LinkBeyond(vals: seq<int>, marks: seq<bool>, w: nat, v: int, vs: seq<int>, ms: seq<bool>)
    requires |marks| == |vals| && 1 <= w < |vals|
    requires vs == vals[..w] + [v] + vals[w..] && ms == marks[..w] + [false] + marks[w..]
    ensures Kept(vs, ms, w + 1, |vals|) == Kept(vals, marks, w, |vals| - 1)
  {
    KeptShift(vals, marks, w, |vals| - 1, vs, ms, w + 1, |vals|);
  }

  /**
   * Linking `v` in at position `w`, between the values below it and a
   * value above it, with a false mark and nothing marked before it: the
   * live values gain `v`.
   */
  lemma LinkLive(vals: seq<int>, marks: seq<bool>, w: nat, v: int)
    requires |marks| == |vals| && Increasing(vals) && 1 <= w < |vals| && v < vals[w]
    requires forall k :: 1 <= k < w ==> vals[k] < v && !marks[k]
    ensures LiveOf(vals[..w] + [v] + vals[w..], marks[..w] + [false] + marks[w..]) == Insert(LiveOf(vals, marks), v)
    ensures |LiveOf(vals[..w] + [v] + vals[w..], marks[..w] + [false] + marks[w..])| == |LiveOf(vals, marks)| + 1
  {
    var n := |vals|;
    LinkShape(vals, marks, w, v);
    LiveAround(vals, marks, w);
    var a, b := vals[1..w], Kept(vals, marks, w, n - 1);
    assert forall k :: 0 <= k < |a| ==> a[k] < v;
    KeptAbove(vals, marks, w, n - 1, v);
    InsertBetween(a, b, v);
  }

  /** The live values after unlinking the node at position `w`. */
  lemma CutShape(vals: seq<int>, marks: seq<bool>, w: nat)
    requires |marks| == |vals| && 1 <= w < |vals| - 1
    requires forall k :: 1 <= k < w ==> !marks[k]
    ensures LiveOf(vals[..w] + vals[w + 1..], marks[..w] + marks[w + 1..])
            == vals[1..w] + Kept(vals, marks, w + 1, |vals| - 1)
  {
    var n := |vals|;
    var vs, ms := vals[..w] + vals[w + 1..], marks[..w] + marks[w + 1..];
    assert LiveOf(vs, ms) == Kept(vs, ms, 1, n - 2);
    KeptSplit(vs, ms, 1, w, n - 2);
    CutBefore(vals, marks, w, vs, ms);
    CutAfter(vals, marks, w, vs, ms);
  }

  /** Before the cut, the unmarked interior values are kept as they are. */
  lemma CutBefore(vals: seq<int>, marks: seq<bool>, w: nat, vs: seq<int>, ms: seq<bool>)
    requires |marks| == |vals| && 1 <= w < |vals| - 1
    requires forall k :: 1 <= k < w ==> !marks[k]
    requires vs == vals[..w] + vals[w + 1..] && ms == marks[..w] + marks[w + 1..]
    ensures Kept(vs, ms, 1, w) == vals[1..w]
  {
    KeptShift(vals, marks, 1, w, vs, ms, 1, w);
    KeptAll(vals, marks, 1, w);
  }

  /** After the cut, every position has moved down by one. */
  lemma CutAfter(vals: seq<int>, marks: seq<bool>, w: nat, vs: seq<int>, ms: seq<bool>)
    requires |marks| == |vals| && 1 <= w < |vals| - 1
    requires vs == vals[..w] + vals[w + 1..] && ms == marks[..w] + marks[w + 1..]
    ensures Kept(vs, ms, w, |vals| - 2) == Kept(vals, marks, w + 1, |vals| - 1)
  {
    KeptShift(vals, marks, w + 1, |vals| - 1, vs, ms, w, |vals| - 2);
  }

  /**
   * Unlinking the node at position `w`, which holds `v` and, like every
   * interior node before it, was unmarked before the remove marked it:
   * the live values lose `v`.
   */
  lemma CutLive(vals: seq<int>, marks: seq<bool>, w: nat, v: int)
    requires |marks| == |vals| && 1 <= w < |vals| - 1 && vals[w] == v && !marks[w]
    requires forall k :: 1 <= k < w ==> vals[k] < v && !marks[k]
    ensures LiveOf(vals[..w] + vals[w + 1..], marks[..w] + marks[w + 1..]) == Delete(LiveOf(vals, marks), v)
    ensures |LiveOf(vals[..w] + vals[w + 1..], marks[..w] + marks[w + 1..])| + 1 == |LiveOf(vals, marks)|
  {
    var n := |vals|;
    CutShape(vals, marks, w);
    LiveAround(vals, marks, w + 1);
    var a, b := vals[1..w], Kept(vals, marks, w + 1, n - 1);
    assert vals[1..w + 1] == a + [v];
    assert LiveOf(vals, marks) == a + [v] + b;
    assert v !in a by {
      forall k | 0 <= k < |a| ensures a[k] != v {
        assert a[k] == vals[k + 1];
      }
    }
    DeleteFound(a, b, v);
  }

  // ---------------------------------------------------------------------------
  // The heap updates
  // ---------------------------------------------------------------------------

  /**
   * The window find returns, on the nodes: `value` is live exactly when the
   * window's node holds it, so adding a present value and removing an
   * absent one change nothing.
   */
  lemma WindowLive(head: Node, t: seq<Node>, i: nat, value: int)
    requires Chain(head, t) && Increasing(Values(t)) && InRange(value)
    requires i + 1 < |t| && i + 1 == Window(Values(t), value, 1)
    requires forall k :: 0 <= k <= i ==> !t[k].next.mark
    requires t[i + 1] == t[|t| - 1] || !t[i + 1].next.mark
    ensures value in Live(t) <==> t[i + 1].value == value
    ensures t[i + 1].value == value ==> Insert(Live(t), value) == Live(t)
    ensures t[i + 1].value != value ==> Delete(Live(t), value) == Live(t)
  {
    var vals, marks := Values(t), Marks(t);
    assert Framed(vals);
    assert forall k :: 1 <= k < i + 1 ==> !marks[k] by {
      forall k | 1 <= k < i + 1 ensures !marks[k] {
        assert marks[k] == t[k].next.mark;
      }
    }
    assert i + 1 == |vals| - 1 || !marks[i + 1];
    WindowFindsLive(vals, marks, value, i + 1);
  }

  /**
   * add's update: create a node holding `value` whose field points,
   * unmarked, to `next`, and CAS `previous`'s field from (next, unmarked)
   * to (node, unmarked). The CAS fails exactly when `previous`'s field is
   * marked, which happens only in the window find returns after unlinking
   * a node followed by the tail; then nothing changes. When it succeeds,
   * the live values gain `value`.
   */
  method LinkNew(head: Node, ghost t: seq<Node>, previous: Node, next: Node, ghost i: nat, value: int)
    returns (ok: bool, ghost t': seq<Node>)
    requires Chain(head, t) && Increasing(Values(t)) && InRange(value)
    requires i + 1 < |t| && next == t[i + 1] && i + 1 == Window(Values(t), value, 1) && next.value != value
    requires forall k :: 0 <= k <= i ==> !t[k].next.mark
    requires next == t[|t| - 1] || !next.next.mark
    requires (previous == t[i] && previous.next == Successor(next, false)) || previous.next == Successor(next, true)
    modifies previous`next
    ensures ok <==> !old(previous.next.mark)
    ensures !ok ==> t' == t && previous.next == old(previous.next)
    ensures ok ==> |t'| == |t| + 1 && t' == t[..i + 1] + [t'[i + 1]] + t[i + 1..] && fresh(t'[i + 1])
    ensures Chain(head, t') && Increasing(Values(t'))
    ensures ok ==> Marks(t') == old(Marks(t))[..i + 1] + [false] + old(Marks(t))[i + 1..]
    ensures Live(t') == if ok then Insert(old(Live(t)), value) else old(Live(t))
    ensures ok ==> value !in old(Live(t)) && |Live(t')| == |old(Live(t))| + 1
    ensures forall n :: n in t' ==> n in t || fresh(n)
  {
    ghost var vals, marks := Values(t), Marks(t);
    WindowBounds(vals, value, 1);
    assert Framed(vals);
    WindowFindsLive(vals, marks, value, i + 1);
    ok, t' := LinkNode(head, t, previous, next, i, value);
    if ok {
      assert forall k :: 1 <= k < i + 1 ==> vals[k] < value && !marks[k];
      LinkLive(vals, marks, i + 1, value);
    }
  }

  /** The heap side of add's update: the new node and the CAS. */
  method LinkNode(head: Node, ghost t: seq<Node>, previous: Node, next: Node, ghost i: nat, value: int)
    returns (ok: bool, ghost t': seq<Node>)
    requires Chain(head, t) && Increasing(Values(t)) && InRange(value)
    requires i + 1 < |t| && next == t[i + 1] && Values(t)[i] < value < Values(t)[i + 1]
    requires !t[i].next.mark
    requires (previous == t[i] && previous.next == Successor(next, false)) || previous.next == Successor(next, true)
    modifies previous`next
    ensures ok <==> !old(previous.next.mark)
    ensures !ok ==> t' == t && previous.next == old(previous.next)
    ensures ok ==> |t'| == |t| + 1 && t' == t[..i + 1] + [t'[i + 1]] + t[i + 1..] && fresh(t'[i + 1])
    ensures Chain(head, t') && Increasing(Values(t'))
    ensures ok ==> Values(t') == Values(t)[..i + 1] + [value] + Values(t)[i + 1..]
    ensures ok ==> Marks(t') == old(Marks(t))[..i + 1] + [false] + old(Marks(t))[i + 1..]
    ensures forall n :: n in t' ==> n in t || fresh(n)
  {
    ghost var vals, marks := Values(t), Marks(t);
    var node := new Node(value, Successor(next, false));
    ok := previous.CompareAndSet(next, node, false, false);
    if !ok {
      t' := t;
      return;
    }
    DistinctNodes(t, i);
    t' := t[..i + 1] + [node] + t[i + 1..];
    forall k | 0 <= k < |t| ensures t[k].next.mark == marks[k] { }
    assert Marks(t) == marks;
    SpliceParts(t, i, node);
    SpliceIncreasing(vals, i + 1, value);
    forall k | 0 <= k < |t'| - 1 ensures t'[k].next.ref == t'[k + 1] {
      if k < i {
        assert t'[k] == t[k] && t'[k + 1] == t[k + 1];
      } else if k > i + 1 {
        assert t'[k] == t[k - 1] && t'[k + 1] == t[k];
      }
    }
    SpliceMembers(t, i, node);
  }

  /** The values and marks of a sequence of nodes with `node` spliced in after position `i`. */
  lemma SpliceParts(t: seq<Node>, i: nat, node: Node)
    requires i < |t|
    ensures Values(t[..i + 1] + [node] + t[i + 1..]) == Values(t)[..i + 1] + [node.value] + Values(t)[i + 1..]
    ensures Marks(t[..i + 1] + [node] + t[i + 1..]) == Marks(t)[..i + 1] + [node.next.mark] + Marks(t)[i + 1..]
  { }

  /**
   * remove's logical deletion: read the successor of `next`, then mark
   * `next`'s field keeping that successor (attemptMark). With nothing
   * running concurrently the successor is still the one read, so the mark
   * is always set.
   */
  method MarkNode(head: Node, ghost t: seq<Node>, next: Node, ghost i: nat) returns (succ: Node, snip: bool)
    requires Chain(head, t) && Increasing(Values(t)) && i + 2 < |t| && next == t[i + 1] && !next.next.mark
    modifies next`next
    ensures snip && succ == t[i + 2] && next.next == Successor(succ, true)
    ensures Chain(head, t) && Marks(t) == old(Marks(t))[i + 1 := true]
  {
    assert t[i + 1].next.ref == t[i + 2];
    succ := next.next.ref;
    snip := next.AttemptMark(succ, true);
    DistinctNodes(t, i + 1);
    assert Marks(t) == old(Marks(t))[i + 1 := true];
  }

  /**
   * remove's physical deletion: CAS `previous`'s field from (next,
   * unmarked) to (succ, unmarked). `previous` is unmarked and points to
   * `next`, so it succeeds. The live values, counted with the marks from
   * before the remove marked `next`, lose `next`'s value.
   */
  method UnlinkMarked(head: Node, ghost t: seq<Node>, previous: Node, next: Node, succ: Node, ghost i: nat,
                      ghost value: int, ghost m0: seq<bool>)
    returns (ghost t': seq<Node>)
    requires Chain(head, t) && Increasing(Values(t)) && InRange(value)
    requires i + 2 < |t| && previous == t[i] && next == t[i + 1] && succ == t[i + 2] && next.value == value
    requires i + 1 == Window(Values(t), value, 1)
    requires previous.next == Successor(next, false) && next.next == Successor(succ, true)
    requires |m0| == |t| && Marks(t) == m0[i + 1 := true]
    requires forall k :: 0 <= k <= i + 1 ==> !m0[k]
    modifies previous`next
    ensures t' == t[..i + 1] + t[i + 2..]
    ensures Chain(head, t') && Increasing(Values(t'))
    ensures Marks(t') == m0[..i + 1] + m0[i + 2..]
    ensures Live(t') == Delete(LiveOf(Values(t), m0), value)
    ensures |Live(t')| + 1 == |LiveOf(Values(t), m0)|
    ensures forall n :: n in t' ==> n in t
  {
    ghost var vals := Values(t);
    var unlinked;
    unlinked, t' := Unlink(head, t, i, previous, next, succ);
    assert unlinked;
    assert Marks(t') == m0[..i + 1] + m0[i + 2..] by {
      assert old(Marks(t))[..i + 1] == m0[..i + 1] && old(Marks(t))[i + 2..] == m0[i + 2..];
    }
    WindowBounds(vals, value, 1);
    CutLive(vals, m0, i + 1, value);
  }

}
