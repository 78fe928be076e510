/**
 * The node and the heap operations of IntSetLinkedListLockFree. A node's
 * successor field is an AtomicMarkableReference: a (reference, mark) pair
 * that is only changed by compare-and-set. The mark in a node's own pair
 * means that node is logically deleted. With nothing running concurrently,
 * a compare-and-set is a comparison followed by a write.
 *
 * Outside its operations the list may hold marked nodes that are still
 * linked in (a remove by another thread that has marked its node but not
 * yet unlinked it); `find` unlinks the ones it passes. The set the list
 * represents is the values of the reachable interior nodes that are not
 * marked, its "live" values.
 */
module LockFreeNodes {
  import opened IntSetSpec
  import opened Filters

  /** The pair held by an AtomicMarkableReference: the successor and the mark. */
  datatype Successor = Successor(ref: Node?, mark: bool)

  /**
   * A list node. The tail sentinel has no AtomicMarkableReference in the
   * source (its field is null); here its pair is (null, false), and the
   * code never reads it.
   */
  class Node {
    const value: int
    var next: Successor

    constructor (value: int, next: Successor)
      ensures this.value == value && this.next == next
    {
      this.value := value;
      this.next := next;
    }

    /**
     * compareAndSet(expectedRef, newRef, expectedMark, newMark): install the
     * new pair and succeed iff the field holds the expected pair; on
     * failure nothing changes.
     */
    method CompareAndSet(expectedRef: Node?, newRef: Node?, expectedMark: bool, newMark: bool) returns (ok: bool)
      modifies `next
      ensures ok <==> old(next) == Successor(expectedRef, expectedMark)
      ensures next == if ok then Successor(newRef, newMark) else old(next)
    {
      ok := next == Successor(expectedRef, expectedMark);
      if ok {
        next := Successor(newRef, newMark);
      }
    }

    /**
     * attemptMark(expectedRef, newMark): set the mark and succeed iff the
     * field holds the expected reference; on failure nothing changes.
     */
    method AttemptMark(expectedRef: Node?, newMark: bool) returns (ok: bool)
      modifies `next
      ensures ok <==> old(next).ref == expectedRef
      ensures next == if ok then Successor(expectedRef, newMark) else old(next)
    {
      ok := next.ref == expectedRef;
      if ok {
        next := Successor(expectedRef, newMark);
      }
    }
  }

  /** The values of a sequence of nodes (values never change, so this reads nothing). */
  function Values(nodes: seq<Node>): seq<int>
  {
    seq(|nodes|, k requires 0 <= k < |nodes| => nodes[k].value)
  }

  /** The marks in the nodes' own fields. */
  ghost function Marks(nodes: seq<Node>): seq<bool>
    reads nodes
  {
    seq(|nodes|, k requires 0 <= k < |nodes| reads nodes => nodes[k].next.mark)
  }

  /** No node is marked. */
  ghost predicate NoneMarked(nodes: seq<Node>)
    reads nodes
  {
    forall k :: 0 <= k < |nodes| ==> !nodes[k].next.mark
  }

  /** No node is marked when the marks read off the nodes are all false. */
  lemma NoneMarkedByMarks(nodes: seq<Node>, m: seq<bool>)
    requires Marks(nodes) == m && forall k :: 0 <= k < |m| ==> !m[k]
    ensures NoneMarked(nodes)
  {
    forall k | 0 <= k < |nodes| ensures !nodes[k].next.mark {
      assert Marks(nodes)[k] == nodes[k].next.mark;
    }
  }

  /** The live values of a full value list: the interior values whose mark is false. */
  function LiveOf(vals: seq<int>, marks: seq<bool>): seq<int>
    requires |marks| == |vals| && 2 <= |vals|
  {
    Kept(vals, marks, 1, |vals| - 1)
  }

  /** The live values of the reachable nodes. */
  ghost function Live(nodes: seq<Node>): seq<int>
    requires 2 <= |nodes|
    reads nodes
  {
    LiveOf(Values(nodes), Marks(nodes))
  }

  /**
   * `spine` lists the nodes reachable from `head` by the references, in
   * order: the head sentinel (MIN_VALUE, never marked) first, the tail
   * sentinel (MAX_VALUE, no successor) last, and no MAX_VALUE in between.
   */
  ghost predicate Chain(head: Node, spine: seq<Node>)
    reads spine
  {
    2 <= |spine| && spine[0] == head && head.value == MIN_VALUE && !head.next.mark
    && (forall k :: 0 <= k < |spine| - 1 ==> spine[k].next.ref == spine[k + 1])
    && spine[|spine| - 1].value == MAX_VALUE && spine[|spine| - 1].next.ref == null
    && (forall k :: 0 < k < |spine| - 1 ==> spine[k].value < MAX_VALUE)
  }

  /** isLastNode: the node holds MAX_VALUE. */
  predicate IsLastNode(node: Node)
  {
    node.value == MAX_VALUE
  }

  /** In a chain, isLastNode holds exactly of the tail. */
  lemma LastNodeIsTail(head: Node, spine: seq<Node>, k: nat)
    requires Chain(head, spine) && k < |spine|
    ensures IsLastNode(spine[k]) <==> k == |spine| - 1
  {
  }

  /** With nothing marked, the live values are the interior values. */
  lemma LiveUnmarked(nodes: seq<Node>)
    requires 2 <= |nodes| && NoneMarked(nodes)
    ensures Live(nodes) == Values(nodes)[1..|nodes| - 1]
  {
    KeptAll(Values(nodes), Marks(nodes), 1, |nodes| - 1);
  }

  /** The live values of an increasing list increase. */
  lemma LiveIncreasing(vals: seq<int>, marks: seq<bool>)
    requires |marks| == |vals| && 2 <= |vals| && Increasing(vals)
    ensures Increasing(LiveOf(vals, marks))
  {
    LiveIncreasingFrom(vals, marks, |vals| - 1);
  }

  lemma {:induction false} LiveIncreasingFrom(vals: seq<int>, marks: seq<bool>, hi: nat)
    requires |marks| == |vals| && 1 <= hi <= |vals| && Increasing(vals)
    ensures Increasing(Kept(vals, marks, 1, hi))
    decreases hi
  {
    if hi > 1 {
      LiveIncreasingFrom(vals, marks, hi - 1);
      KeptFrom(vals, marks, 1, hi - 1);
      var c := Kept(vals, marks, 1, hi - 1);
      forall x | 0 <= x < |c| ensures c[x] < vals[hi - 1] {
        assert c[x] in vals[1..hi - 1];
      }
    }
  }

  // ---------------------------------------------------------------------------
  // Filtering nodes, on values
  // ---------------------------------------------------------------------------

  /** Filtering nodes, then taking their values, is filtering their values. */
  lemma {:induction false} ValuesKept(nodes: seq<Node>, m: seq<bool>, lo: nat, hi: nat)
    requires lo <= hi <= |nodes| && |m| == |nodes|
    ensures Values(Kept(nodes, m, lo, hi)) == Kept(Values(nodes), m, lo, hi)
    decreases hi
  {
    if hi > lo {
      ValuesKept(nodes, m, lo, hi - 1);
    }
  }

  /** Filtering nodes, then taking their marks, is filtering their marks. */
  lemma {:induction false} MarksKept(nodes: seq<Node>, m: seq<bool>, lo: nat, hi: nat)
    requires lo <= hi <= |nodes| && |m| == |nodes|
    ensures Marks(Kept(nodes, m, lo, hi)) == Kept(Marks(nodes), m, lo, hi)
    decreases hi
  {
    if hi > lo {
      MarksKept(nodes, m, lo, hi - 1);
    }
  }

  /** Filtering from the head: the unmarked head, then the filtered rest. */
  lemma KeptFromHead<T>(s: seq<T>, marks: seq<bool>, j: nat)
    requires |marks| == |s| && 1 <= j <= |s| && !marks[0]
    ensures Kept(s, marks, 0, j) == [s[0]] + Kept(s, marks, 1, j)
  {
    KeptSplit(s, marks, 0, 1, j);
    assert Kept(s, marks, 0, 1) == [s[0]];
  }

  /**
   * Unlinking marked nodes keeps the live values: the nodes before index
   * `j` filtered by their marks (the head is unmarked), then the rest.
   */
  lemma SnipsKeepLive(vals: seq<int>, marks: seq<bool>, j: nat)
    requires |marks| == |vals| && 1 <= j < |vals| && !marks[0]
    ensures 1 <= |Kept(vals, marks, 0, j)| == |Kept(marks, marks, 0, j)|
    ensures LiveOf(Kept(vals, marks, 0, j) + vals[j..], Kept(marks, marks, 0, j) + marks[j..]) == LiveOf(vals, marks)
  {
    var a := Kept(vals, marks, 0, j);
    var b := Kept(marks, marks, 0, j);
    KeptLength(vals, marks, marks, 0, j);
    KeptFromHead(vals, marks, j);
    var vs := a + vals[j..];
    var ms := b + marks[j..];
    PrefixUnmarked(vals, marks, j, vs, ms);
    SuffixShift(vals, marks, j, vs, ms);
    LiveJoined(vs, ms, vals, marks, |a|, j);
  }

  /** Two lists with the same live values on either side of a cut have the same live values. */
  lemma LiveJoined(vs: seq<int>, ms: seq<bool>, vals: seq<int>, marks: seq<bool>, c: nat, j: nat)
    requires |ms| == |vs| && |marks| == |vals| && 1 <= c < |vs| && 1 <= j < |vals|
    requires Kept(vs, ms, 1, c) == Kept(vals, marks, 1, j)
    requires Kept(vs, ms, c, |vs| - 1) == Kept(vals, marks, j, |vals| - 1)
    ensures LiveOf(vs, ms) == LiveOf(vals, marks)
  {
    KeptSplit(vs, ms, 1, c, |vs| - 1);
    KeptSplit(vals, marks, 1, j, |vals| - 1);
  }

  lemma PrefixUnmarked(vals: seq<int>, marks: seq<bool>, j: nat, vs: seq<int>, ms: seq<bool>)
    requires |marks| == |vals| && 1 <= j < |vals| && !marks[0]
    requires |Kept(vals, marks, 0, j)| == |Kept(marks, marks, 0, j)|
    requires Kept(vals, marks, 0, j) == [vals[0]] + Kept(vals, marks, 1, j)
    requires vs == Kept(vals, marks, 0, j) + vals[j..] && ms == Kept(marks, marks, 0, j) + marks[j..]
    ensures Kept(vs, ms, 1, |Kept(vals, marks, 0, j)|) == Kept(vals, marks, 1, j)
  {
    var a := Kept(vals, marks, 0, j);
    var b := Kept(marks, marks, 0, j);
    KeptUnmarked(marks, 0, j);
    forall k | 1 <= k < |a| ensures !ms[k] {
      assert ms[k] == b[k] && b[k] in b;
    }
    KeptAll(vs, ms, 1, |a|);
    assert vs[1..|a|] == a[1..];
  }

  lemma SuffixShift(vals: seq<int>, marks: seq<bool>, j: nat, vs: seq<int>, ms: seq<bool>)
    requires |marks| == |vals| && 1 <= j < |vals|
    requires |Kept(vals, marks, 0, j)| == |Kept(marks, marks, 0, j)|
    requires vs == Kept(vals, marks, 0, j) + vals[j..] && ms == Kept(marks, marks, 0, j) + marks[j..]
    ensures Kept(vs, ms, |Kept(vals, marks, 0, j)|, |vs| - 1) == Kept(vals, marks, j, |vals| - 1)
  {
    var a := Kept(vals, marks, 0, j);
    KeptShift(vals, marks, j, |vals| - 1, vs, ms, |a|, |vs| - 1);
  }

  /** The unlinked nodes' values, in a heap where the marks are still `m`. */
  lemma FindKeepsLive(o: seq<Node>, m: seq<bool>, t: seq<Node>, j: nat)
    requires |m| == |o| && Marks(o) == m && 1 <= j < |o| && !m[0]
    requires t == Kept(o, m, 0, j) + o[j..]
    ensures 2 <= |t| && Live(t) == LiveOf(Values(o), m)
  {
    SnipsKeepLive(Values(o), m, j);
    KeptLength(o, Values(o), m, 0, j);
    ValuesKept(o, m, 0, j);
    MarksKept(o, m, 0, j);
    AppendSuffix(Kept(o, m, 0, j), o, j);
  }

  /** The values and marks of some nodes followed by a suffix of a list. */
  lemma AppendSuffix(a: seq<Node>, o: seq<Node>, j: nat)
    requires j <= |o|
    ensures Values(a + o[j..]) == Values(a) + Values(o)[j..]
    ensures Marks(a + o[j..]) == Marks(a) + Marks(o)[j..]
  {
  }

  /** The two steps of find's walk, on the walk's relation to the list it started from. */
  lemma SnipStep(o: seq<Node>, m: seq<bool>, j: nat, t: seq<Node>, p: nat)
    requires |m| == |o| && j < |o| && m[j]
    requires t == Kept(o, m, 0, j) + o[j..] && |Kept(o, m, 0, j)| == p + 1 && p + 2 <= |t|
    ensures Kept(o, m, 0, j + 1) == Kept(o, m, 0, j)
    ensures t[..p + 1] + t[p + 2..] == Kept(o, m, 0, j + 1) + o[j + 1..]
  {
    assert t[..p + 1] == Kept(o, m, 0, j);
    assert t[p + 2..] == o[j + 1..];
  }

  lemma AdvanceStep(o: seq<Node>, m: seq<bool>, j: nat, t: seq<Node>, p: nat)
    requires |m| == |o| && j < |o| && !m[j]
    requires t == Kept(o, m, 0, j) + o[j..] && |Kept(o, m, 0, j)| == p + 1
    ensures t == Kept(o, m, 0, j + 1) + o[j + 1..] && |Kept(o, m, 0, j + 1)| == p + 2
  {
    assert o[j..] == [o[j]] + o[j + 1..];
  }

  /** The values skipped so far are below `v`, so the window can be looked for from there. */
  lemma {:induction false} WindowSkip(s: seq<int>, v: int, k: nat)
    requires 1 <= k < |s|
    requires forall x :: 1 <= x < k ==> s[x] < v
    ensures Window(s, v, 1) == Window(s, v, k)
    decreases k
  {
    if k > 1 {
      WindowSkip(s, v, k - 1);
    }
  }

  // ---------------------------------------------------------------------------
  // find
  // ---------------------------------------------------------------------------

  /**
   * The state of find's walk: `sp` is the list now, `previous` and `curr`
   * are its nodes `p` and `p + 1`, and `curr` is node `jj` of the list
   * `spine` find started from (whose marks were `m` and still are); the
   * marked nodes before `curr` are unlinked, the nodes passed are unmarked
   * and hold less than `v`.
   */
  ghost predicate Walking(head: Node, spine: seq<Node>, m: seq<bool>, sp: seq<Node>, p: nat, jj: nat,
                          previous: Node, curr: Node, v: int)
    reads spine, sp
  {
    Chain(head, sp) && Increasing(Values(sp)) && |m| == |spine| && Marks(spine) == m
    && 1 <= jj < |spine| && spine[0] == head && sp == Kept(spine, m, 0, jj) + spine[jj..] && |Kept(spine, m, 0, jj)| == p + 1
    && (forall n :: n in sp ==> n in spine)
    && p + 1 < |sp| && previous == sp[p] && curr == sp[p + 1]
    && (forall k :: 0 <= k <= p ==> !sp[k].next.mark)
    && (forall k :: 1 <= k <= p ==> sp[k].value < v)
  }

  /**
   * The CAS that unlinks the node after an unmarked `previous`: swing
   * `previous`'s reference from it to its successor. It succeeds, because
   * the field holds the expected (reference, unmarked) pair, and the list
   * loses exactly that node.
   */
  method Unlink(head: Node, ghost sp: seq<Node>, ghost p: nat, previous: Node, curr: Node, succ: Node)
    returns (ok: bool, ghost t: seq<Node>)
    requires Chain(head, sp) && Increasing(Values(sp))
    requires p + 2 < |sp| && previous == sp[p] && curr == sp[p + 1] && succ == sp[p + 2]
    requires previous.next == Successor(curr, false)
    modifies previous`next
    ensures ok && previous.next == Successor(succ, false)
    ensures t == sp[..p + 1] + sp[p + 2..] && |t| == |sp| - 1
    ensures Chain(head, t) && Increasing(Values(t))
    ensures Values(t) == Values(sp)[..p + 1] + Values(sp)[p + 2..]
    ensures Marks(t) == old(Marks(sp))[..p + 1] + old(Marks(sp))[p + 2..]
    ensures forall n :: n in t ==> n in sp
  {
    DistinctNodes(sp, p);
    ghost var m := Marks(sp);
    ok := previous.CompareAndSet(curr, succ, false, false);
    t := sp[..p + 1] + sp[p + 2..];
    forall k | 0 <= k < |sp| ensures sp[k].next.mark == m[k] {
    }
    assert Marks(sp) == m;
    CutParts(sp, p);
    CutMembers(sp, p);
    CutIncreasing(Values(sp), p + 1);
    forall k | 0 <= k < |t| - 1 ensures t[k].next.ref == t[k + 1] {
      if k < p {
        assert t[k] == sp[k] && t[k + 1] == sp[k + 1];
      } else if k > p {
        assert t[k] == sp[k + 1] && t[k + 1] == sp[k + 2];
      }
    }
  }

  /** The values and marks of a list with one node cut out. */
  lemma CutParts(sp: seq<Node>, p: nat)
    requires p + 1 < |sp|
    ensures Values(sp[..p + 1] + sp[p + 2..]) == Values(sp)[..p + 1] + Values(sp)[p + 2..]
    ensures Marks(sp[..p + 1] + sp[p + 2..]) == Marks(sp)[..p + 1] + Marks(sp)[p + 2..]
  {
  }

  /**
   * The CAS of find's inner loop: swing `previous`'s reference from the
   * marked `curr` to its successor. The walk goes on at the successor, in
   * the list `t` without `curr`.
   */
  method Snip(head: Node, ghost spine: seq<Node>, ghost m: seq<bool>, previous: Node, curr: Node, succ: Node,
              ghost sp: seq<Node>, ghost p: nat, ghost jj: nat, ghost v: int)
    returns (snip: bool, ghost t: seq<Node>)
    requires Walking(head, spine, m, sp, p, jj, previous, curr, v)
    requires p + 2 < |sp| && succ == sp[p + 2] && curr.next == Successor(succ, true)
    modifies previous`next
    ensures snip && |t| == |sp| - 1 && curr.next == old(curr.next)
    ensures Walking(head, spine, m, t, p, jj + 1, previous, succ, v)
  {
    assert m[jj] by {
      assert sp[p + 1] == spine[jj];
    }
    SnipStep(spine, m, jj, sp, p);
    assert previous.next == Successor(curr, false) by {
      assert !sp[p].next.mark;
    }
    snip, t := Unlink(head, sp, p, previous, curr, succ);
    forall k | 0 <= k < |spine| ensures spine[k].next.mark == m[k] {
    }
    assert Marks(spine) == m;
  }

  /** find's advance past an unmarked node holding less than `v`. */
  lemma Advance(head: Node, spine: seq<Node>, m: seq<bool>, previous: Node, curr: Node, succ: Node,
                sp: seq<Node>, p: nat, jj: nat, v: int)
    requires Walking(head, spine, m, sp, p, jj, previous, curr, v)
    requires p + 2 < |sp| && succ == sp[p + 2] && !curr.next.mark && curr.value < v
    ensures jj + 1 < |spine| && Walking(head, spine, m, sp, p + 1, jj + 1, curr, succ, v)
  {
    assert m[jj] == curr.next.mark by {
      assert sp[p + 1] == spine[jj];
    }
    AdvanceStep(spine, m, jj, sp, p);
  }

  /** In a strictly increasing list, distinct positions hold distinct nodes. */
  lemma DistinctNodes(spine: seq<Node>, i: nat)
    requires Increasing(Values(spine)) && i < |spine|
    ensures forall k :: 0 <= k < |spine| ==> (spine[k] == spine[i] <==> k == i)
  {
    forall k | 0 <= k < |spine| ensures spine[k] == spine[i] <==> k == i {
      if k != i {
        assert Values(spine)[k] != Values(spine)[i];
      }
    }
  }

  /**
   * find's inner loop: while `curr`'s field is marked, unlink `curr` and
   * move to its successor. When the successor of an unlinked node is the
   * tail, find returns that unlinked node and the tail (`atTail`).
   */
  method SnipMarked(head: Node, ghost spine: seq<Node>, ghost m: seq<bool>, previous: Node, curr: Node, succ: Node,
                    marked: bool, ghost sp: seq<Node>, ghost p: nat, ghost jj: nat, v: int)
    returns (atTail: bool, curr': Node, succ': Node?, ghost sp': seq<Node>, ghost jj': nat)
    requires Walking(head, spine, m, sp, p, jj, previous, curr, v)
    requires p + 2 < |sp| && succ == sp[p + 2] && curr.next == Successor(succ, marked)
    modifies set n | n in spine
    ensures jj <= jj'
    ensures !atTail ==> Walking(head, spine, m, sp', p, jj', previous, curr', v)
                        && p + 2 < |sp'| && succ' == sp'[p + 2] && curr'.next == Successor(succ', false)
    ensures atTail ==> succ' != null && Walking(head, spine, m, sp', p, jj', previous, succ', v)
                       && p + 2 == |sp'| && curr'.next == Successor(succ', true) && |sp'| < |spine| && curr' in spine
  {
    curr', succ', sp', jj' := curr, succ, sp, jj;
    var marked' := marked;
    while marked'
      invariant Walking(head, spine, m, sp', p, jj', previous, curr', v)
      invariant p + 2 < |sp'| && succ' == sp'[p + 2] && curr'.next == Successor(succ', marked')
      invariant jj <= jj'
      decreases |spine| - jj'
    {
      atTail, curr', succ', marked', sp', jj' := SnipOne(head, spine, m, previous, curr', succ', sp', p, jj', v);
      if atTail {
        return;
      }
    }
    atTail := false;
  }

  /**
   * One pass of find's inner loop: unlink the marked `curr`; stop if its
   * successor is the tail, otherwise move to the successor and read its
   * field.
   */
  method SnipOne(head: Node, ghost spine: seq<Node>, ghost m: seq<bool>, previous: Node, curr: Node, succ: Node,
                 ghost sp: seq<Node>, ghost p: nat, ghost jj: nat, ghost v: int)
    returns (atTail: bool, curr': Node, succ': Node, marked': bool, ghost sp': seq<Node>, ghost jj': nat)
    requires Walking(head, spine, m, sp, p, jj, previous, curr, v)
    requires p + 2 < |sp| && succ == sp[p + 2] && curr.next == Successor(succ, true)
    modifies previous`next
    ensures jj < jj'
    ensures !atTail ==> Walking(head, spine, m, sp', p, jj', previous, curr', v)
                        && p + 2 < |sp'| && succ' == sp'[p + 2] && curr'.next == Successor(succ', marked')
    ensures atTail ==> Walking(head, spine, m, sp', p, jj', previous, succ', v)
                       && p + 2 == |sp'| && curr'.next == Successor(succ', true) && |sp'| < |spine| && curr' in spine
  {
    var snip;
    snip, sp' := Snip(head, spine, m, previous, curr, succ, sp, p, jj, v);
    if !snip {
      assert false;
    }
    jj' := jj + 1;
    LastNodeIsTail(head, sp', p + 1);
    curr', succ', marked' := curr, succ, true;
    atTail := IsLastNode(succ);
    if !atTail {
      curr' := succ;
      var s := curr'.next;
      assert s.ref == sp'[p + 2];
      succ', marked' := s.ref, s.mark;
    }
  }

  /**
   * find(head, v): walk from the head; unlink every marked node met on the
   * way by a CAS on its predecessor's field; stop at the tail or at the
   * first unmarked node holding at least `v`, and return it with its
   * predecessor. The new list `t` is the old one with the marked nodes
   * before index `j` (the returned node's) taken out, so the live values
   * are unchanged. When the node unlinked last was followed by the tail,
   * the window returned is that unlinked node and the tail: its field is
   * marked, which a later CAS expecting an unmarked field sees.
   *
   * The CAS that unlinks a node fails only when another thread changed
   * `previous`'s field; the restart of the `retry` loop it then triggers
   * is modelled by an unreachable branch.
   */
  method Find(head: Node, ghost spine: seq<Node>, v: int)
    returns (previous: Node, next: Node, ghost t: seq<Node>, ghost i: nat, ghost j: nat)
    requires Chain(head, spine) && Increasing(Values(spine))
    modifies set n | n in spine
    ensures Chain(head, t) && Increasing(Values(t))
    ensures Marks(spine) == old(Marks(spine))
    ensures 1 <= j < |spine| && t == Kept(spine, old(Marks(spine)), 0, j) + spine[j..]
    ensures forall n :: n in t ==> n in spine
    ensures previous in spine
    ensures Live(t) == old(Live(spine))
    ensures old(NoneMarked(spine)) ==> t == spine
    ensures i + 1 < |t| && next == t[i + 1] && i + 1 == Window(Values(t), v, 1)
    ensures forall k :: 0 <= k <= i ==> !t[k].next.mark
    ensures next == t[|t| - 1] || !next.next.mark
    ensures (previous == t[i] && previous.next == Successor(next, false))
         || (next == t[|t| - 1] && previous.next == Successor(next, true) && |t| < |spine|)
  {
    ghost var m := Marks(spine);
    assert NoneMarked(spine) ==> forall k :: 0 <= k < |m| ==> !m[k];
    var curr, cut, atTail;
    previous, curr, cut, atTail, t, i, j := Walk(head, spine, m, v);
    FindDone(head, spine, m, t, i, j, previous, curr, v);
    FindWindow(head, spine, m, t, i, j, previous, curr, v);
    next := curr;
    if atTail {
      previous := cut;
    }
  }

  /**
   * find's outer loop, pass by pass, until a pass stops; with nothing
   * running concurrently it never restarts from the head.
   */
  method Walk(head: Node, ghost spine: seq<Node>, ghost m: seq<bool>, v: int)
    returns (previous: Node, curr: Node, cut: Node, atTail: bool, ghost sp: seq<Node>, ghost p: nat, ghost jj: nat)
    requires Chain(head, spine) && Increasing(Values(spine)) && Marks(spine) == m
    modifies set n | n in spine
    ensures Walking(head, spine, m, sp, p, jj, previous, curr, v)
    ensures p + 1 == |sp| - 1 || (v <= curr.value && !curr.next.mark)
    ensures atTail ==> p + 1 == |sp| - 1 && cut.next == Successor(curr, true) && |sp| < |spine| && cut in spine
  {
    previous := head;
    assert spine[0].next.ref == spine[1];
    curr := head.next.ref;
    cut := head;
    sp, p, jj := spine, 0, 1;
    assert Kept(spine, m, 0, 1) == [head];
    while true
      invariant Walking(head, spine, m, sp, p, jj, previous, curr, v)
      decreases |spine| - jj
    {
      var stop;
      stop, atTail, previous, curr, cut, sp, p, jj := FindStep(head, spine, m, previous, curr, sp, p, jj, v);
      if stop {
        return;
      }
    }
  }

  /**
   * One pass of find's outer loop: stop at the tail; otherwise unlink the
   * marked nodes from `curr` on, then stop (at the tail after an unlinked
   * node `cut`, or at an unmarked node holding at least `v`) or advance
   * past the unmarked node reached.
   */
  method FindStep(head: Node, ghost spine: seq<Node>, ghost m: seq<bool>, previous: Node, curr: Node,
                  ghost sp: seq<Node>, ghost p: nat, ghost jj: nat, v: int)
    returns (stop: bool, atTail: bool, previous': Node, curr': Node, cut: Node,
             ghost sp': seq<Node>, ghost p': nat, ghost jj': nat)
    requires Walking(head, spine, m, sp, p, jj, previous, curr, v)
    modifies set n | n in spine
    ensures Walking(head, spine, m, sp', p', jj', previous', curr', v)
    ensures jj <= jj' && (!stop ==> jj < jj')
    ensures stop ==> p' + 1 == |sp'| - 1 || (v <= curr'.value && !curr'.next.mark)
    ensures stop && atTail ==> p' + 1 == |sp'| - 1 && cut.next == Successor(curr', true) && |sp'| < |spine| && cut in spine
  {
    LastNodeIsTail(head, sp, p + 1);
    if IsLastNode(curr) {
      stop, atTail, previous', curr', cut, sp', p', jj' := true, false, previous, curr, curr, sp, p, jj;
      return;
    }
    var s := curr.next;
    assert s.ref == sp[p + 2];
    var c, succ;
    atTail, c, succ, sp', jj' := SnipMarked(head, spine, m, previous, curr, s.ref, s.mark, sp, p, jj, v);
    if atTail {
      stop, previous', curr', cut, p' := true, previous, succ, c, p;
    } else if c.value >= v {
      stop, previous', curr', cut, p' := true, previous, c, c, p;
    } else {
      Advance(head, spine, m, previous, c, succ, sp', p, jj', v);
      stop, previous', curr', cut, p', jj' := false, c, succ, c, p + 1, jj' + 1;
    }
  }

  /** The window find returns, read off the walk's state. */
  lemma FindWindow(head: Node, o: seq<Node>, m: seq<bool>, t: seq<Node>, p: nat, j: nat,
                   previous: Node, curr: Node, v: int)
    requires Walking(head, o, m, t, p, j, previous, curr, v)
    requires p + 1 == |t| - 1 || !curr.next.mark
    ensures p + 1 < |t| && curr == t[p + 1] && previous == t[p] && previous.next == Successor(curr, false)
    ensures forall k :: 0 <= k <= p ==> !t[k].next.mark
    ensures curr == t[|t| - 1] || !curr.next.mark
  {
    assert !t[p].next.mark;
  }

  /** What find's three exits share: the live values and the window's position. */
  lemma FindDone(head: Node, o: seq<Node>, m: seq<bool>, t: seq<Node>, p: nat, j: nat,
                 previous: Node, curr: Node, v: int)
    requires Walking(head, o, m, t, p, j, previous, curr, v)
    requires p + 1 == |t| - 1 || v <= curr.value
    ensures Live(t) == LiveOf(Values(o), m)
    ensures p + 1 == Window(Values(t), v, 1)
    ensures (forall k :: 0 <= k < |m| ==> !m[k]) ==> t == o
  {
    if forall k :: 0 <= k < |m| ==> !m[k] {
      KeptAll(o, m, 0, j);
      assert o[..j] + o[j..] == o;
    }
    assert !m[0] by {
      assert m[0] == o[0].next.mark;
    }
    FindKeepsLive(o, m, t, j);
    WindowSkip(Values(t), v, p + 1);
  }
}
