/**
 * Filtering a sequence by a parallel sequence of marks: what a walk that
 * skips logically deleted nodes sees. Used by the lazy and the lock-free
 * variants, whose marks live in different node classes.
 */
module Filters {
  import opened IntSetSpec

  /** The elements `s[k]`, `lo <= k < hi`, whose mark `m[k]` is false, in order. */
  function Kept<T>(s: seq<T>, m: seq<bool>, lo: nat, hi: nat): (k: seq<T>)
    requires lo <= hi <= |s| && |m| == |s|
    ensures |k| <= hi - lo
    decreases hi
  {
    if hi == lo then [] else Kept(s, m, lo, hi - 1) + (if m[hi - 1] then [] else [s[hi - 1]])
  }

  /** The sum of the counters `a[k]`, `lo <= k < hi`, whose mark `m[k]` is false. */
  function KeptSum(a: seq<int>, m: seq<bool>, lo: nat, hi: nat): int
    requires lo <= hi <= |a| && |m| == |a|
    decreases hi
  {
    if hi == lo then 0 else KeptSum(a, m, lo, hi - 1) + (if m[hi - 1] then 0 else a[hi - 1])
  }

  /** Filtering a range is filtering its two halves. */
  lemma {:induction false} KeptSplit<T>(s: seq<T>, m: seq<bool>, lo: nat, mid: nat, hi: nat)
    requires lo <= mid <= hi <= |s| && |m| == |s|
    ensures Kept(s, m, lo, hi) == Kept(s, m, lo, mid) + Kept(s, m, mid, hi)
    decreases hi
  {
    if hi > mid {
      KeptSplit(s, m, lo, mid, hi - 1);
    }
  }

  /** With nothing in the range marked, nothing is filtered out. */
  lemma {:induction false} KeptAll<T>(s: seq<T>, m: seq<bool>, lo: nat, hi: nat)
    requires lo <= hi <= |s| && |m| == |s|
    requires forall k :: lo <= k < hi ==> !m[k]
    ensures Kept(s, m, lo, hi) == s[lo..hi]
    decreases hi
  {
    if hi > lo {
      KeptAll(s, m, lo, hi - 1);
      assert s[lo..hi] == s[lo..hi - 1] + [s[hi - 1]];
    }
  }

  /** Kept looks only at the elements and marks in its range, wherever that range sits. */
  lemma {:induction false} KeptShift<T>(s: seq<T>, m: seq<bool>, lo: nat, hi: nat, s': seq<T>, m': seq<bool>, lo': nat, hi': nat)
    requires lo <= hi <= |s| && |m| == |s| && hi' == lo' + (hi - lo) <= |s'| && |m'| == |s'|
    requires forall k :: lo' <= k < hi' ==> s'[k] == s[k - lo' + lo] && m'[k] == m[k - lo' + lo]
    ensures Kept(s', m', lo', hi') == Kept(s, m, lo, hi)
    decreases hi
  {
    if hi > lo {
      KeptShift(s, m, lo, hi - 1, s', m', lo', hi' - 1);
    }
  }

  /** Every element kept comes from the range. */
  lemma {:induction false} KeptFrom<T>(s: seq<T>, m: seq<bool>, lo: nat, hi: nat)
    requires lo <= hi <= |s| && |m| == |s|
    ensures forall x :: x in Kept(s, m, lo, hi) ==> x in s[lo..hi]
    decreases hi
  {
    if hi > lo {
      KeptFrom(s, m, lo, hi - 1);
      assert s[lo..hi] == s[lo..hi - 1] + [s[hi - 1]];
    }
  }

  /** The marks filtered by themselves are all false. */
  lemma {:induction false} KeptUnmarked(m: seq<bool>, lo: nat, hi: nat)
    requires lo <= hi <= |m|
    ensures forall x :: x in Kept(m, m, lo, hi) ==> !x
    decreases hi
  {
    if hi > lo {
      KeptUnmarked(m, lo, hi - 1);
    }
  }

  /** Two sequences filtered by the same marks keep as many elements each. */
  lemma {:induction false} KeptLength<T, U>(s: seq<T>, t: seq<U>, m: seq<bool>, lo: nat, hi: nat)
    requires lo <= hi <= |s| && |t| == |s| && |m| == |s|
    ensures |Kept(s, m, lo, hi)| == |Kept(t, m, lo, hi)|
    decreases hi
  {
    if hi > lo {
      KeptLength(s, t, m, lo, hi - 1);
    }
  }

  /** With everything in `[j, k)` marked, filtering up to `k` is filtering up to `j`. */
  lemma {:induction false} KeptSkip<T>(s: seq<T>, m: seq<bool>, lo: nat, j: nat, k: nat)
    requires |m| == |s| && lo <= j <= k <= |s|
    requires forall i :: j <= i < k ==> m[i]
    ensures Kept(s, m, lo, k) == Kept(s, m, lo, j)
    decreases k
  {
    if k > j {
      KeptSkip(s, m, lo, j, k - 1);
    }
  }

  // ---------------------------------------------------------------------------
  // The walk of a `validate()` that skips marked nodes
  // ---------------------------------------------------------------------------

  /** The values such a walk has looked at before position `j`: the head's, then the unmarked ones. */
  function Shown(v: seq<int>, m: seq<bool>, j: nat): (s: seq<int>)
    requires |v| == |m| && 1 <= j <= |v|
    ensures 1 <= |s| && s[0] == v[0]
  {
    [v[0]] + Kept(v, m, 1, j)
  }

  /** Appending a value above the last keeps a sequence increasing. */
  lemma ExtendOrder(s: seq<int>, x: int)
    requires 1 <= |s| && Increasing(s) && s[|s| - 1] < x
    ensures Increasing(s + [x])
  {
    var t := s + [x];
    assert t[..|s|] == s;
    IncreasingExtend(t, |s|);
    assert t[..|s| + 1] == t;
  }

  /**
   * One round of the walk: the unmarked value at `j` is above the last one
   * shown, and the walk then skips the marked positions up to `k`.
   */
  lemma ShownStep(v: seq<int>, m: seq<bool>, j: nat, k: nat)
    requires |v| == |m| && 1 <= j < k <= |m| && !m[j]
    requires Increasing(Shown(v, m, j)) && Shown(v, m, j)[|Shown(v, m, j)| - 1] < v[j]
    requires forall i :: j + 1 <= i < k ==> m[i]
    ensures Shown(v, m, k) == Shown(v, m, j) + [v[j]]
    ensures Increasing(Shown(v, m, k))
  {
    KeptSkip(v, m, 1, j + 1, k);
    ExtendOrder(Shown(v, m, j), v[j]);
  }
}
