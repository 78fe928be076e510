/**
 * The two read-only walks of IntSetLinkedListLockFree: the traversal of
 * `contains()` and the walk of `validate()`. Unlike `find`, both read the
 * mark out of the field they follow, so the mark they attach to a node is
 * its predecessor's, not its own. The walk of `validate()` skips every node
 * reached through a marked field.
 */
module LockFreeWalk {
  import opened IntSetSpec
  import opened Filters
  import opened LockFreeNodes

  /**
   * The mark a walk that reads `get(marked)` holds on arriving at each
   * position: the mark of the field it came through, and false at the head,
   * which is reached through no field.
   */
  function Shifted(marks: seq<bool>): (f: seq<bool>)
    ensures |f| == |marks|
    ensures forall k :: 0 < k < |f| ==> f[k] == marks[k - 1]
    ensures |f| > 0 ==> !f[0]
  {
    if marks == [] then [] else [false] + marks[..|marks| - 1]
  }

  /** The interior values `validate()` counts: those reached through an unmarked field. */
  function SeenOf(vals: seq<int>, marks: seq<bool>): seq<int>
    requires |marks| == |vals| && 2 <= |vals|
  {
    Kept(vals, Shifted(marks), 1, |vals| - 1)
  }

  /** The same, for the reachable nodes. */
  ghost function Seen(nodes: seq<Node>): seq<int>
    requires 2 <= |nodes|
    reads nodes
  {
    SeenOf(Values(nodes), Marks(nodes))
  }

  /**
   * What `contains(v)` answers: the first node not below `v` holds `v`
   * and the field that led to it is unmarked.
   */
  function ContainsAsWritten(vals: seq<int>, marks: seq<bool>, v: int): bool
    requires |marks| == |vals| && 1 <= |vals|
  {
    var w := Window(vals, v, 0);
    vals[w] == v && !Shifted(marks)[w]
  }

  // ---------------------------------------------------------------------------
  // Both readings agree when nothing is marked, and only then
  // ---------------------------------------------------------------------------

  /** With no mark set, `validate()` counts exactly the live values. */
  lemma SeenUnmarked(vals: seq<int>, marks: seq<bool>)
    requires |marks| == |vals| && 2 <= |vals|
    requires forall k :: 0 <= k < |marks| ==> !marks[k]
    ensures SeenOf(vals, marks) == LiveOf(vals, marks) == vals[1..|vals| - 1]
  {
    KeptAll(vals, marks, 1, |vals| - 1);
    KeptAll(vals, Shifted(marks), 1, |vals| - 1);
  }

  /** With no mark set, `contains(v)` answers whether `v` is live. */
  lemma ContainsUnmarked(vals: seq<int>, marks: seq<bool>, v: int)
    requires |marks| == |vals| && Framed(vals) && InRange(v)
    requires forall k :: 0 <= k < |marks| ==> !marks[k]
    ensures ContainsAsWritten(vals, marks, v) <==> v in LiveOf(vals, marks)
  {
    assert Window(vals, v, 0) == Window(vals, v, 1);
    WindowFindsMember(vals, v);
    SeenUnmarked(vals, marks);
    assert Interior(vals) == vals[1..|vals| - 1];
  }

  /**
   * A marked node that is still linked in (its remove has marked it but
   * not yet unlinked it): with 1 marked in MIN_VALUE, 1, 2, MAX_VALUE, the
   * live values are {2}, yet `contains(1)` answers true, `contains(2)`
   * answers false and `validate()` counts 1 instead of 2.
   */
  lemma MarkedReadFromPredecessor()
    ensures var vals, marks := [MIN_VALUE, 1, 2, MAX_VALUE], [false, true, false, false];
            LiveOf(vals, marks) == [2] && SeenOf(vals, marks) == [1]
            && ContainsAsWritten(vals, marks, 1) && !ContainsAsWritten(vals, marks, 2)
  {
    var vals, marks := [MIN_VALUE, 1, 2, MAX_VALUE], [false, true, false, false];
    var f := Shifted(marks);
    assert f == [false, false, true, false];
    assert Kept(vals, marks, 1, 2) == [] && Kept(vals, f, 1, 2) == [1];
    assert Window(vals, 1, 1) == 1 && Window(vals, 2, 2) == 2;
  }

  // ---------------------------------------------------------------------------
  // The traversal of `contains()`
  // ---------------------------------------------------------------------------

  /**
   * The loop of `contains()`: from the head, follow the fields while the
   * value is below `v`, keeping the mark of the last field followed. It
   * stops at the first node not below `v`.
   */
  method Scan(head: Node, ghost spine: seq<Node>, v: int) returns (node: Node, marked: bool, ghost k: nat)
    requires Chain(head, spine) && IsInt(v)
    ensures k == Window(Values(spine), v, 0) && node == spine[k] && v <= node.value
    ensures marked == Shifted(Marks(spine))[k]
  {
    ghost var s, f := Values(spine), Shifted(Marks(spine));
    node, marked, k := head, false, 0;
    WindowBounds(s, v, 0);
    while node.value < v
      invariant k < |spine| && node == spine[k] && marked == f[k]
      invariant Window(s, v, 0) == Window(s, v, k)
      decreases |spine| - k
    {
      assert spine[k].next.ref == spine[k + 1];
      var field := node.next;
      node, marked := field.ref, field.mark;
      k := k + 1;
    }
  }

  // ---------------------------------------------------------------------------
  // The walk of `validate()`
  // ---------------------------------------------------------------------------

  /**
   * The inner loops of `validate()`: while the field just read is marked,
   * read the next one. The walk cannot run past the tail because the field
   * leading to the tail is unmarked.
   */
  method SkipFlagged(head: Node, ghost spine: seq<Node>, ghost f: seq<bool>, node: Node, marked: bool, ghost j: nat)
    returns (next: Node, ghost k: nat)
    requires Chain(head, spine) && f == Shifted(Marks(spine)) && !f[|spine| - 1]
    requires 1 <= j < |spine| && node == spine[j] && marked == f[j]
    ensures j <= k < |spine| && next == spine[k] && !f[k]
    ensures forall i :: j <= i < k ==> f[i]
  {
    var flag := marked;
    next, k := node, j;
    while flag
      invariant j <= k < |spine| && next == spine[k] && flag == f[k]
      invariant forall i :: j <= i < k ==> f[i]
      decreases |spine| - k
    {
      assert spine[k].next.ref == spine[k + 1];
      var field := next.next;
      next, flag := field.ref, field.mark;
      k := k + 1;
    }
  }

  /** A value not above the last one shown leaves what `validate()` counts out of order. */
  lemma ShownBreaks(v: seq<int>, f: seq<bool>, j: nat)
    requires |v| == |f| && 1 <= j < |v| - 1 && !f[j]
    requires Shown(v, f, j)[|Shown(v, f, j)| - 1] >= v[j]
    ensures !Increasing(Shown(v, f, |v| - 1))
  {
    var s := Shown(v, f, j);
    KeptSplit(v, f, 1, j + 1, |v| - 1);
    KeptSplit(v, f, 1, j, j + 1);
    var w := Shown(v, f, |v| - 1);
    assert w == s + [v[j]] + Kept(v, f, j + 1, |v| - 1);
    assert w[|s| - 1] == s[|s| - 1] && w[|s|] == v[j];
  }

  /**
   * The state of the walk of `validate()` at the node `spine[j]`, reached
   * through an unmarked field: the values shown so far are increasing,
   * `previousValue` is the last of them, `size` counts those after the
   * head's, and `checker` holds none above `previousValue`.
   */
  ghost predicate Seeing(head: Node, spine: seq<Node>, v: seq<int>, f: seq<bool>, node: Node, j: nat, value: int,
                         previousValue: int, checker: set<int>, size: int)
    reads spine
  {
    Chain(head, spine) && v == Values(spine) && f == Shifted(Marks(spine)) && !f[|spine| - 1]
    && 1 <= j < |spine| && node == spine[j] && !f[j] && value == v[j]
    && previousValue == Shown(v, f, j)[|Shown(v, f, j)| - 1]
    && Increasing(Shown(v, f, j))
    && size == |Shown(v, f, j)| - 1
    && (forall x :: x in checker ==> x <= previousValue)
  }

  /**
   * One round of the outer loop of `validate()`: check the value reached
   * against the previous one and the values met before, then move to the
   * next node reached through an unmarked field.
   */
  method SeenStep(head: Node, ghost spine: seq<Node>, ghost v: seq<int>, ghost f: seq<bool>, node: Node, ghost j: nat,
                  value: int, previousValue: int, checker: set<int>, size: int)
    returns (failed: bool, node': Node, ghost j': nat, value': int, previousValue': int, checker': set<int>, size': int)
    requires Seeing(head, spine, v, f, node, j, value, previousValue, checker, size) && value < MAX_VALUE
    ensures failed ==> !Increasing(Shown(v, f, |spine| - 1))
    ensures !failed ==> Seeing(head, spine, v, f, node', j', value', previousValue', checker', size') && j < j'
  {
    if !(previousValue < value) || value in checker {
      ShownBreaks(v, f, j);
      return true, node, j, value, previousValue, checker, size;
    }
    failed := false;
    size' := size + 1;
    checker' := checker + {value};
    previousValue' := value;
    assert spine[j].next.ref == spine[j + 1];
    var field := node.next;
    node', j' := SkipFlagged(head, spine, f, field.ref, field.mark, j + 1);
    ShownStep(v, f, j, j');
    value' := node'.value;
  }

  /**
   * The walk of `validate()`: from the head's value, check that every
   * value reached through an unmarked field is above the previous one and
   * was not met before, and count those values. The first failed check
   * ends the walk.
   */
  method CheckSeen(head: Node, ghost spine: seq<Node>) returns (ordered: bool, size: int)
    requires Chain(head, spine) && !spine[|spine| - 2].next.mark
    ensures ordered <==> Increasing([MIN_VALUE] + Seen(spine))
    ensures ordered ==> size == |Seen(spine)|
  {
    ghost var n := |spine|;
    ghost var v, f := Values(spine), Shifted(Marks(spine));
    assert Shown(v, f, n - 1) == [MIN_VALUE] + Seen(spine);
    var checker: set<int> := {};
    var previousValue := head.value;
    size := 0;
    assert spine[0].next.ref == spine[1];
    var field := head.next;
    var node;
    ghost var j: nat;
    node, j := SkipFlagged(head, spine, f, field.ref, field.mark, 1);
    KeptSkip(v, f, 1, 1, j);
    var value := node.value;
    while value < MAX_VALUE
      invariant Seeing(head, spine, v, f, node, j, value, previousValue, checker, size)
      decreases n - j
    {
      var failed;
      failed, node, j, value, previousValue, checker, size := SeenStep(head, spine, v, f, node, j, value, previousValue, checker, size);
      if failed {
        return false, size;
      }
    }
    ordered := true;
  }
}
