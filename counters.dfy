/**
 * Sums of the per-node `add`/`remove` counters of the per-node-lock
 * variants, and how the two counter updates of those variants move them.
 */
module Counters {

  /** The sum of a sequence of counters. */
  function Sum(s: seq<int>): int
  {
    if s == [] then 0 else s[0] + Sum(s[1..])
  }

  /** Sums distribute over concatenation. */
  lemma {:induction false} SumAppend(a: seq<int>, b: seq<int>)
    ensures Sum(a + b) == Sum(a) + Sum(b)
  {
    if a == [] {
      assert a + b == b;
    } else {
      assert (a + b)[0] == a[0];
      assert (a + b)[1..] == a[1..] + b;
      SumAppend(a[1..], b);
    }
  }

  /** Summing one more element of a prefix. */
  lemma SumPrefix(s: seq<int>, i: nat)
    requires i < |s|
    ensures Sum(s[..i + 1]) == Sum(s[..i]) + s[i]
  {
    assert s[..i + 1] == s[..i] + [s[i]];
    SumAppend(s[..i], [s[i]]);
  }

  /** Summing one more element. */
  lemma SumSnoc(s: seq<int>, x: int)
    ensures Sum(s + [x]) == Sum(s) + x
  {
    SumAppend(s, [x]);
  }

  /** Splitting a sum around index `i`. */
  lemma SumAround(s: seq<int>, i: nat)
    requires i < |s|
    ensures Sum(s) == Sum(s[..i]) + s[i] + Sum(s[i + 1..])
  {
    assert s == s[..i] + [s[i]] + s[i + 1..];
    SumAppend(s[..i] + [s[i]], s[i + 1..]);
    SumAppend(s[..i], [s[i]]);
  }

  /**
   * The counters after a node is linked in after index `i`: the counter at
   * `i` grows by `d`, the new node at `i + 1` starts at 0, and every other
   * counter keeps its value (those after the new node move up one place).
   */
  function Linked(c: seq<int>, i: nat, d: int): (c': seq<int>)
    requires i < |c|
    ensures |c'| == |c| + 1 && c'[i] == c[i] + d && c'[i + 1] == 0
    ensures forall k :: 0 <= k < i ==> c'[k] == c[k]
    ensures forall k :: i + 1 < k < |c'| ==> c'[k] == c[k - 1]
  {
    c[..i] + [c[i] + d, 0] + c[i + 1..]
  }

  /**
   * The counters after the node at index `i + 1` is unlinked and its
   * counter folded into the one at `i`, which also grows by `d`; every
   * other counter keeps its value (those after the gap move down one place).
   */
  function Folded(c: seq<int>, i: nat, d: int): (c': seq<int>)
    requires i + 1 < |c|
    ensures |c'| == |c| - 1 && c'[i] == c[i] + c[i + 1] + d
    ensures forall k :: 0 <= k < i ==> c'[k] == c[k]
    ensures forall k :: i < k < |c'| ==> c'[k] == c[k + 1]
  {
    c[..i] + [c[i] + c[i + 1] + d] + c[i + 2..]
  }

  /** A link changes the sum of the counters by exactly what the predecessor gains. */
  lemma SumLinked(c: seq<int>, i: nat, d: int)
    requires i < |c|
    ensures Sum(Linked(c, i, d)) == Sum(c) + d
  {
    var pair := [c[i] + d, 0];
    SumAppend(c[..i] + pair, c[i + 1..]);
    SumAppend(c[..i], pair);
    assert Sum(pair) == c[i] + d by {
      assert pair[1..] == [0];
      assert [0][1..] == [];
    }
    SumAround(c, i);
  }

  /** A fold loses nothing the unlinked node counted: the sum changes by exactly `d`. */
  lemma SumFolded(c: seq<int>, i: nat, d: int)
    requires i + 1 < |c|
    ensures Sum(Folded(c, i, d)) == Sum(c) + d
  {
    var merged := [c[i] + c[i + 1] + d];
    SumAppend(c[..i] + merged, c[i + 2..]);
    SumAppend(c[..i], merged);
    SumAround(c, i + 1);
    SumPrefix(c, i);
  }
}
