/**
 * The two unlocked walks of IntSetLinkedListLazyPerNodeLock: the walk of
 * `validate()`, which skips marked nodes, and the traversal of
 * `contains()`. Both only read the heap. The walk of `validate()` is proved
 * against snapshots of the values, marks and counters taken before it
 * starts; `Kept` and `KeptSum` filter a snapshot by the marks.
 */
module LazyWalk {
  import opened IntSetSpec
  import opened Counters
  import opened LazyList
  import opened Filters

  /** The marks of a sequence of nodes. */
  ghost function Marks(nodes: seq<Node>): seq<bool>
    reads nodes
  {
    seq(|nodes|, k requires 0 <= k < |nodes| reads nodes => nodes[k].marked)
  }

  /** Filtering nodes, then taking their values, is filtering their values. */
  lemma {:induction false} KeptValues(nodes: seq<Node>, m: seq<bool>, lo: nat, hi: nat)
    requires lo <= hi <= |nodes| && |m| == |nodes|
    ensures Values(Kept(nodes, m, lo, hi)) == Kept(Values(nodes), m, lo, hi)
    decreases hi
  {
    if hi > lo {
      KeptValues(nodes, m, lo, hi - 1);
    }
  }

  /** Filtering nodes, then summing their counters, is summing the filtered counters. */
  lemma {:induction false} KeptCounters(nodes: seq<Node>, m: seq<bool>, lo: nat, hi: nat)
    requires lo <= hi <= |nodes| && |m| == |nodes|
    ensures Sum(Adds(Kept(nodes, m, lo, hi))) == KeptSum(Adds(nodes), m, lo, hi)
    ensures Sum(Removes(Kept(nodes, m, lo, hi))) == KeptSum(Removes(nodes), m, lo, hi)
    decreases hi
  {
    if hi > lo {
      var c := Kept(nodes, m, lo, hi - 1);
      KeptCounters(nodes, m, lo, hi - 1);
      if !m[hi - 1] {
        var node := nodes[hi - 1];
        assert Adds(c + [node]) == Adds(c) + [node.add];
        assert Removes(c + [node]) == Removes(c) + [node.remove];
        SumSnoc(Adds(c), node.add);
        SumSnoc(Removes(c), node.remove);
      } else {
        assert Kept(nodes, m, lo, hi) == c;
      }
    }
  }

  /** The nodes `validate()` counts: the head and the unmarked interior nodes (not the tail). */
  ghost function Counted(spine: seq<Node>): seq<Node>
    reads spine
    requires 2 <= |spine|
  {
    [spine[0]] + Kept(spine, Marks(spine), 1, |spine| - 1)
  }

  /** The nodes `validate()` sees: the counted nodes, then the tail. */
  ghost function Visible(spine: seq<Node>): seq<Node>
    reads spine
    requires 2 <= |spine|
  {
    Counted(spine) + [spine[|spine| - 1]]
  }

  /**
   * With no node marked, `validate()` sees the whole list, and, when the tail
   * counts nothing, it sums all the counters.
   */
  lemma VisibleAll(spine: seq<Node>)
    requires 2 <= |spine| && NoneMarked(spine)
    requires spine[|spine| - 1].add == 0 && spine[|spine| - 1].remove == 0
    ensures Visible(spine) == spine
    ensures Sum(Adds(Counted(spine))) == Sum(Adds(spine)) && Sum(Removes(Counted(spine))) == Sum(Removes(spine))
  {
    var n := |spine|;
    KeptAll(spine, Marks(spine), 1, n - 1);
    assert Counted(spine) == spine[..n - 1];
    assert Visible(spine) == spine;
    var a, r := Adds(spine), Removes(spine);
    assert Adds(spine[..n - 1]) == a[..n - 1] && Removes(spine[..n - 1]) == r[..n - 1];
    SumPrefix(a, n - 1);
    SumPrefix(r, n - 1);
    assert a[..n] == a && r[..n] == r;
  }

  /** Summing a sequence with one more element in front. */
  lemma SumCons(x: int, s: seq<int>)
    ensures Sum([x] + s) == x + Sum(s)
  {
    assert ([x] + s)[1..] == s;
  }

  /** The values `validate()` sees, in terms of the marks of the list. */
  lemma VisibleValues(spine: seq<Node>, m: seq<bool>)
    requires 2 <= |spine| && m == Marks(spine)
    ensures Values(Visible(spine)) == [spine[0].value] + Kept(Values(spine), m, 1, |spine| - 1) + [spine[|spine| - 1].value]
  {
    var n := |spine|;
    var k := Kept(spine, m, 1, n - 1);
    KeptValues(spine, m, 1, n - 1);
    assert Visible(spine) == [spine[0]] + k + [spine[n - 1]];
    ListsAppend([spine[0]], k);
    ListsAppend([spine[0]] + k, [spine[n - 1]]);
    assert Values([spine[0]]) == [spine[0].value] && Values([spine[n - 1]]) == [spine[n - 1].value];
  }

  /** The sums `validate()` computes, in terms of the marks and counters of the list. */
  lemma CountedSums(spine: seq<Node>, m: seq<bool>, a: seq<int>, r: seq<int>)
    requires 2 <= |spine| && m == Marks(spine) && a == Adds(spine) && r == Removes(spine)
    ensures Sum(Adds(Counted(spine))) == a[0] + KeptSum(a, m, 1, |spine| - 1)
    ensures Sum(Removes(Counted(spine))) == r[0] + KeptSum(r, m, 1, |spine| - 1)
  {
    var n := |spine|;
    var k := Kept(spine, m, 1, n - 1);
    KeptCounters(spine, m, 1, n - 1);
    ListsAppend([spine[0]], k);
    assert Adds([spine[0]]) == [a[0]] && Removes([spine[0]]) == [r[0]];
    SumCons(a[0], Adds(k));
    SumCons(r[0], Removes(k));
  }

  /** Values and counters of a concatenation. */
  lemma ListsAppend(x: seq<Node>, y: seq<Node>)
    ensures Values(x + y) == Values(x) + Values(y)
    ensures Adds(x + y) == Adds(x) + Adds(y) && Removes(x + y) == Removes(x) + Removes(y)
  {
  }

  /** An unmarked value not above the last one shown leaves what `validate()` sees out of order. */
  lemma OrderBreaks(v: seq<int>, m: seq<bool>, j: nat)
    requires |v| == |m| && 1 <= j < |v| - 1 && !m[j]
    requires Shown(v, m, j)[|Shown(v, m, j)| - 1] >= v[j]
    ensures !Increasing([v[0]] + Kept(v, m, 1, |v| - 1) + [v[|v| - 1]])
  {
    var n := |v|;
    KeptSplit(v, m, 1, j + 1, n - 1);
    var s := Shown(v, m, j);
    var w := [v[0]] + Kept(v, m, 1, n - 1) + [v[n - 1]];
    assert w == s + [v[j]] + Kept(v, m, j + 1, n - 1) + [v[n - 1]];
    assert w[|s| - 1] == s[|s| - 1] && w[|s|] == v[j];
  }

  /** The inner loops of `validate()`: advance past marked nodes. */
  method SkipMarked(head: Node, ghost spine: seq<Node>, ghost m: seq<bool>, node: Node, ghost j: nat)
    returns (next: Node, ghost k: nat)
    requires Chain(head, spine) && m == Marks(spine) && !m[|spine| - 1]
    requires 1 <= j < |spine| && node == spine[j]
    ensures j <= k < |spine| && next == spine[k] && !m[k]
    ensures forall i :: j <= i < k ==> m[i]
  {
    next, k := node, j;
    while next.marked
      invariant j <= k < |spine| && next == spine[k]
      invariant forall i :: j <= i < k ==> m[i]
      decreases |spine| - k
    {
      assert spine[k + 1] == spine[k].next;
      next := next.next;
      k := k + 1;
    }
  }

  /** Skipping marked elements changes nothing summed. */
  lemma {:induction false} SumsSkip(a: seq<int>, r: seq<int>, m: seq<bool>, j: nat, k: nat)
    requires |a| == |m| && |r| == |m| && 1 <= j <= k <= |m|
    requires forall i :: j <= i < k ==> m[i]
    ensures KeptSum(a, m, 1, k) == KeptSum(a, m, 1, j) && KeptSum(r, m, 1, k) == KeptSum(r, m, 1, j)
    decreases k
  {
    if k > j {
      SumsSkip(a, r, m, j, k - 1);
    }
  }

  /**
   * One round of the outer loop of `validate()`: the unmarked value at `j`
   * is above the last one shown, and the inner loop then skips the marked
   * positions up to `k`.
   */
  lemma WalkStep(v: seq<int>, m: seq<bool>, a: seq<int>, r: seq<int>, j: nat, k: nat)
    requires |v| == |m| && |a| == |m| && |r| == |m| && 1 <= j < k <= |m| && !m[j]
    requires Increasing(Shown(v, m, j)) && Shown(v, m, j)[|Shown(v, m, j)| - 1] < v[j]
    requires forall i :: j + 1 <= i < k ==> m[i]
    ensures Shown(v, m, k) == Shown(v, m, j) + [v[j]]
    ensures Increasing(Shown(v, m, k))
    ensures KeptSum(a, m, 1, k) == KeptSum(a, m, 1, j) + a[j]
    ensures KeptSum(r, m, 1, k) == KeptSum(r, m, 1, j) + r[j]
  {
    ShownStep(v, m, j, k);
    SumsSkip(a, r, m, j + 1, k);
  }

  /** The walk of `validate()` stops at a value not above the one before: the list it sees is out of order. */
  lemma WalkFails(spine: seq<Node>, m: seq<bool>, j: nat)
    requires 2 <= |spine| && m == Marks(spine) && 1 <= j < |spine| - 1 && !m[j]
    requires Shown(Values(spine), m, j)[|Shown(Values(spine), m, j)| - 1] >= spine[j].value
    ensures !Increasing(Values(Visible(spine)))
  {
    OrderBreaks(Values(spine), m, j);
    VisibleValues(spine, m);
  }

  /** The walk of `validate()` reaches the tail: what it checked and summed is what it sees and counts. */
  lemma WalkEnds(spine: seq<Node>, m: seq<bool>, a: seq<int>, r: seq<int>)
    requires 2 <= |spine| && m == Marks(spine) && a == Adds(spine) && r == Removes(spine)
    requires spine[|spine| - 1].value == MAX_VALUE
    requires Increasing(Shown(Values(spine), m, |spine| - 1))
    requires Shown(Values(spine), m, |spine| - 1)[|Shown(Values(spine), m, |spine| - 1)| - 1] < MAX_VALUE
    ensures Increasing(Values(Visible(spine)))
    ensures |Visible(spine)| == |Shown(Values(spine), m, |spine| - 1)| + 1
    ensures Sum(Adds(Counted(spine))) == a[0] + KeptSum(a, m, 1, |spine| - 1)
    ensures Sum(Removes(Counted(spine))) == r[0] + KeptSum(r, m, 1, |spine| - 1)
  {
    var n := |spine|;
    ExtendOrder(Shown(Values(spine), m, n - 1), MAX_VALUE);
    VisibleValues(spine, m);
    CountedSums(spine, m, a, r);
  }

  /**
   * The state of the walk of `validate()` at the unmarked node `spine[j]`:
   * the values shown so far are increasing, `previousValue` is the last of
   * them, `size` counts them and the tail, the totals sum the counters of
   * the head and the unmarked interior nodes before `j`, and `checker`
   * holds none above `previousValue`.
   */
  ghost predicate Visiting(head: Node, spine: seq<Node>, v: seq<int>, m: seq<bool>, a: seq<int>, r: seq<int>,
                           node: Node, j: nat, value: int, previousValue: int, checker: set<int>,
                           size: int, totalAdds: int, totalRemoves: int)
    reads spine
  {
    Chain(head, spine)
    && v == Values(spine) && m == Marks(spine) && a == Adds(spine) && r == Removes(spine) && !m[|spine| - 1]
    && 1 <= j < |spine| && node == spine[j] && !m[j] && value == v[j]
    && previousValue == Shown(v, m, j)[|Shown(v, m, j)| - 1] && previousValue < MAX_VALUE
    && Increasing(Shown(v, m, j))
    && size == |Shown(v, m, j)| + 1
    && totalAdds == a[0] + KeptSum(a, m, 1, j) && totalRemoves == r[0] + KeptSum(r, m, 1, j)
    && (forall x :: x in checker ==> x <= previousValue)
  }

  /**
   * One round of the outer loop of `validate()`: check the value reached
   * against the previous one and the values met before, add the node's
   * counters, then move to the next unmarked node.
   */
  method VisibleStep(head: Node, ghost spine: seq<Node>, ghost v: seq<int>, ghost m: seq<bool>, ghost a: seq<int>,
                     ghost r: seq<int>, node: Node, ghost j: nat, value: int, previousValue: int, checker: set<int>,
                     size: int, totalAdds: int, totalRemoves: int)
    returns (failed: bool, node': Node, ghost j': nat, value': int, previousValue': int, checker': set<int>,
             size': int, totalAdds': int, totalRemoves': int)
    requires Visiting(head, spine, v, m, a, r, node, j, value, previousValue, checker, size, totalAdds, totalRemoves)
    requires value < MAX_VALUE
    ensures failed ==> !Increasing(Values(Visible(spine)))
    ensures !failed ==> j < j' && Visiting(head, spine, v, m, a, r, node', j', value', previousValue', checker',
                                           size', totalAdds', totalRemoves')
  {
    if !(previousValue < value) || value in checker {
      WalkFails(spine, m, j);
      return true, node, j, value, previousValue, checker, size, totalAdds, totalRemoves;
    }
    failed := false;
    totalAdds' := totalAdds + node.add;
    totalRemoves' := totalRemoves + node.remove;
    checker' := checker + {value};
    previousValue' := value;
    assert spine[j + 1] == spine[j].next;
    node', j' := SkipMarked(head, spine, m, node.next, j + 1);
    WalkStep(v, m, a, r, j, j');
    value' := node'.value;
    size' := size + 1;
  }

  /**
   * The walk of `validate()`: skip marked nodes, check that each visible
   * value is above the previous one and not seen before, sum the counters
   * of the head and the visible interior nodes, and count the visible nodes
   * (sentinels included). The first failed check ends the walk.
   */
  method CheckVisible(head: Node, ghost spine: seq<Node>) returns (ordered: bool, size: int, totalAdds: int, totalRemoves: int)
    requires Chain(head, spine) && !spine[|spine| - 1].marked
    ensures ordered <==> Increasing(Values(Visible(spine)))
    ensures ordered ==> size == |Visible(spine)|
    ensures ordered ==> totalAdds == Sum(Adds(Counted(spine))) && totalRemoves == Sum(Removes(Counted(spine)))
  {
    ghost var v, m, a, r := Values(spine), Marks(spine), Adds(spine), Removes(spine);
    var checker: set<int> := {};
    var previousValue := head.value;
    var node, value;
    ghost var j;
    node, j, value, size, totalAdds, totalRemoves := StartVisit(head, spine, v, m, a, r);
    while value < MAX_VALUE
      invariant Visiting(head, spine, v, m, a, r, node, j, value, previousValue, checker, size, totalAdds, totalRemoves)
      decreases |spine| - j
    {
      var failed;
      failed, node, j, value, previousValue, checker, size, totalAdds, totalRemoves :=
        VisibleStep(head, spine, v, m, a, r, node, j, value, previousValue, checker, size, totalAdds, totalRemoves);
      if failed {
        return false, size, totalAdds, totalRemoves;
      }
    }
    VisitEnds(head, spine, v, m, a, r, node, j, value, previousValue, checker, size, totalAdds, totalRemoves);
    ordered := true;
  }

  /**
   * The start of the walk of `validate()`: the head's counters, and the
   * first unmarked node after the head.
   */
  method StartVisit(head: Node, ghost spine: seq<Node>, ghost v: seq<int>, ghost m: seq<bool>, ghost a: seq<int>, ghost r: seq<int>)
    returns (node: Node, ghost j: nat, value: int, size: int, totalAdds: int, totalRemoves: int)
    requires Chain(head, spine) && !spine[|spine| - 1].marked
    requires v == Values(spine) && m == Marks(spine) && a == Adds(spine) && r == Removes(spine)
    ensures Visiting(head, spine, v, m, a, r, node, j, value, head.value, {}, size, totalAdds, totalRemoves)
  {
    size := 2;
    totalAdds := head.add;
    totalRemoves := head.remove;
    assert spine[1] == spine[0].next;
    node, j := SkipMarked(head, spine, m, head.next, 1);
    KeptSkip(v, m, 1, 1, j);
    SumsSkip(a, r, m, 1, j);
    value := node.value;
  }

  /** The walk of `validate()` ends at the tail having checked and counted every visible node. */
  lemma VisitEnds(head: Node, spine: seq<Node>, v: seq<int>, m: seq<bool>, a: seq<int>, r: seq<int>,
                  node: Node, j: nat, value: int, previousValue: int, checker: set<int>,
                  size: int, totalAdds: int, totalRemoves: int)
    requires Visiting(head, spine, v, m, a, r, node, j, value, previousValue, checker, size, totalAdds, totalRemoves)
    requires MAX_VALUE <= value
    ensures Increasing(Values(Visible(spine))) && size == |Visible(spine)|
    ensures totalAdds == Sum(Adds(Counted(spine))) && totalRemoves == Sum(Removes(Counted(spine)))
  {
    assert j == |spine| - 1;
    WalkEnds(spine, m, a, r);
  }

  /**
   * The traversal of `contains()`: one pointer from the head, advanced while
   * its value is below `v`. It stops at the first node not below `v`.
   */
  method Scan(head: Node, ghost spine: seq<Node>, v: int) returns (node: Node, ghost k: nat)
    requires Chain(head, spine) && IsInt(v)
    ensures k == Window(Values(spine), v, 0) && node == spine[k]
    ensures v <= node.value && (forall j :: 0 <= j < k ==> spine[j].value < v)
  {
    node, k := head, 0;
    ghost var s := Values(spine);
    WindowBounds(s, v, 0);
    while node.value < v
      invariant k < |spine| && node == spine[k]
      invariant Window(s, v, 0) == Window(s, v, k)
      invariant forall j :: 0 <= j < k ==> spine[j].value < v
      decreases |spine| - k
    {
      assert spine[k + 1] == spine[k].next;
      node := node.next;
      k := k + 1;
    }
  }
}
