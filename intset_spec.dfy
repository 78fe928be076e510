/**
 * The abstract ordered set of ints that every linked-list variant refines,
 * and a value-level model of the traversal that all variants share.
 *
 * A list is seen here as the sequence of its node values from the head
 * sentinel to the tail sentinel. The set it represents is the strictly
 * increasing sequence of the values between the two sentinels.
 */
module IntSetSpec {

  /** Integer.MIN_VALUE, the value of the head sentinel. */
  const MIN_VALUE: int := -0x8000_0000
  /** Integer.MAX_VALUE, the value of the tail sentinel. */
  const MAX_VALUE: int := 0x7fff_ffff

  /** A value a Java `int` can hold. */
  predicate IsInt(v: int) { MIN_VALUE <= v <= MAX_VALUE }

  /** A legal operation argument: strictly between the two sentinels. */
  predicate InRange(v: int) { MIN_VALUE < v < MAX_VALUE }

  /** Values strictly increase (so no value occurs twice). */
  predicate Increasing(s: seq<int>) {
    forall i, j :: 0 <= i < j < |s| ==> s[i] < s[j]
  }

  /** A full value list: the head sentinel, strictly increasing values, the tail sentinel. */
  predicate Framed(s: seq<int>) {
    2 <= |s| && s[0] == MIN_VALUE && s[|s| - 1] == MAX_VALUE && Increasing(s)
  }

  /** The set members of a full value list: everything but the two sentinels. */
  function Interior(s: seq<int>): (c: seq<int>)
    requires 2 <= |s|
    ensures |c| == |s| - 2
    ensures forall k :: 0 <= k < |c| ==> c[k] == s[k + 1]
  {
    s[1..|s| - 1]
  }

  // ---------------------------------------------------------------------------
  // The abstract operations on a sorted sequence
  // ---------------------------------------------------------------------------

  /** `v` added to the sorted sequence `s`; `s` itself when `v` is already there. */
  function Insert(s: seq<int>, v: int): seq<int>
  {
    if s == [] then [v]
    else if v < s[0] then [v] + s
    else if v == s[0] then s
    else [s[0]] + Insert(s[1..], v)
  }

  /** The first occurrence of `v` taken out of `s`; `s` itself when `v` is absent. */
  function Delete(s: seq<int>, v: int): seq<int>
  {
    if s == [] then []
    else if v == s[0] then s[1..]
    else [s[0]] + Delete(s[1..], v)
  }

  /** Insert adds exactly `v`. */
  lemma {:induction false} InsertMembers(s: seq<int>, v: int)
    ensures forall x :: x in Insert(s, v) <==> x in s || x == v
  {
    if s != [] && v > s[0] {
      InsertMembers(s[1..], v);
      assert s == [s[0]] + s[1..];
    }
  }

  /** Insert keeps the order, adds exactly `v`, and grows by one iff `v` was absent. */
  lemma {:induction false} InsertSpec(s: seq<int>, v: int)
    requires Increasing(s)
    ensures Increasing(Insert(s, v))
    ensures forall x :: x in Insert(s, v) <==> x in s || x == v
    ensures |Insert(s, v)| == if v in s then |s| else |s| + 1
  {
    InsertMembers(s, v);
    if s == [] {
    } else if v < s[0] {
      assert v !in s by {
        forall k | 0 <= k < |s| ensures s[k] != v { assert s[0] <= s[k]; }
      }
    } else if v == s[0] {
    } else {
      var t := s[1..];
      assert Increasing(t);
      InsertSpec(t, v);
      assert s == [s[0]] + t;
      var r := Insert(t, v);
      assert Insert(s, v) == [s[0]] + r;
      forall j | 0 <= j < |r| ensures s[0] < r[j] {
        assert r[j] in r;
      }
    }
  }

  /** Delete keeps the order, removes exactly `v`, and shrinks by one iff `v` was present. */
  lemma {:induction false} DeleteSpec(s: seq<int>, v: int)
    requires Increasing(s)
    ensures Increasing(Delete(s, v))
    ensures forall x :: x in Delete(s, v) <==> x in s && x != v
    ensures |Delete(s, v)| == if v in s then |s| - 1 else |s|
  {
    if s == [] {
    } else if v == s[0] {
      assert v !in s[1..] by {
        forall k | 1 <= k < |s| ensures s[k] != v { assert s[0] < s[k]; }
      }
      assert s == [s[0]] + s[1..];
    } else {
      var t := s[1..];
      assert Increasing(t);
      DeleteSpec(t, v);
      assert s == [s[0]] + t;
      var r := Delete(t, v);
      forall i, j | 0 <= i < j < |[s[0]] + r| ensures ([s[0]] + r)[i] < ([s[0]] + r)[j] {
        if i == 0 {
          var y := r[j - 1];
          assert y in r && y in t;
          var m :| 0 <= m < |t| && t[m] == y;
          assert s[m + 1] == y;
        }
      }
    }
  }

  /** Inserting a value that is present changes nothing. */
  lemma {:induction false} InsertPresent(s: seq<int>, v: int)
    requires Increasing(s) && v in s
    ensures Insert(s, v) == s
  {
    if v != s[0] {
      assert s == [s[0]] + s[1..];
      assert v in s[1..];
      assert Increasing(s[1..]);
      InsertPresent(s[1..], v);
    }
  }

  /** Deleting a value that is absent changes nothing. */
  lemma {:induction false} DeleteAbsent(s: seq<int>, v: int)
    requires v !in s
    ensures Delete(s, v) == s
  {
    if s != [] {
      DeleteAbsent(s[1..], v);
      assert s == [s[0]] + s[1..];
    }
  }

  /** In a sorted sequence, Insert links `v` in at the position that separates smaller from larger values. */
  lemma {:induction false} InsertAt(s: seq<int>, v: int, i: nat)
    requires i <= |s|
    requires forall k :: 0 <= k < i ==> s[k] < v
    requires forall k :: i <= k < |s| ==> v < s[k]
    ensures Insert(s, v) == s[..i] + [v] + s[i..]
  {
    if i == 0 {
      assert s[..0] == [] && s[0..] == s;
    } else {
      InsertAt(s[1..], v, i - 1);
      assert s[..i] == [s[0]] + s[1..][..i - 1];
      assert s[i..] == s[1..][i - 1..];
    }
  }

  /** In a sorted sequence, Delete of the value at position `i` cuts out exactly position `i`. */
  lemma {:induction false} DeleteAt(s: seq<int>, i: nat)
    requires Increasing(s)
    requires i < |s|
    ensures Delete(s, s[i]) == s[..i] + s[i + 1..]
  {
    if i > 0 {
      var t := s[1..];
      assert s[0] < s[i] && t[i - 1] == s[i];
      assert Increasing(t);
      DeleteAt(t, i - 1);
      assert Delete(s, s[i]) == [s[0]] + Delete(t, s[i]);
      assert s[..i] == [s[0]] + t[..i - 1];
      assert s[i + 1..] == t[i..];
    }
  }

  // ---------------------------------------------------------------------------
  // The traversal, on values
  // ---------------------------------------------------------------------------

  /**
   * The index at which the shared traversal stops when it starts at index `k`:
   * the first node whose value is not less than `v`. On a full value list the
   * tail (MAX_VALUE) stops it at the latest; the bound on the last index only
   * makes the function total.
   */
  function Window(s: seq<int>, v: int, k: nat): (w: nat)
    requires k < |s|
    ensures k <= w < |s|
    decreases |s| - k
  {
    if k == |s| - 1 || v <= s[k] then k else Window(s, v, k + 1)
  }

  /** Everything the traversal passes is below `v`, and it stops at the first value not below `v`. */
  lemma {:induction false} WindowBounds(s: seq<int>, v: int, k: nat)
    requires k < |s|
    ensures forall j :: k <= j < Window(s, v, k) ==> s[j] < v
    ensures Window(s, v, k) == |s| - 1 || v <= s[Window(s, v, k)]
    decreases |s| - k
  {
    if k < |s| - 1 && s[k] < v {
      WindowBounds(s, v, k + 1);
    }
  }

  /** The full value list after `add(v)` as the code is written: link `v` in front of the window unless the window holds `v`. */
  function AddAsWritten(s: seq<int>, v: int): seq<int>
    requires 2 <= |s|
  {
    var w := Window(s, v, 1);
    if s[w] != v then s[..w] + [v] + s[w..] else s
  }

  /** The full value list after `remove(v)` as the code is written: unlink the window's node if it holds `v`. */
  function RemoveAsWritten(s: seq<int>, v: int): seq<int>
    requires 2 <= |s|
  {
    var w := Window(s, v, 1);
    if s[w] == v then s[..w] + s[w + 1..] else s
  }

  /** On a legal argument the window holds `v` exactly when `v` is a member. */
  lemma WindowFindsMember(s: seq<int>, v: int)
    requires Framed(s) && InRange(v)
    ensures (s[Window(s, v, 1)] == v) <==> v in Interior(s)
  {
    var w := Window(s, v, 1);
    WindowBounds(s, v, 1);
    if v in Interior(s) {
      var m :| 0 <= m < |Interior(s)| && Interior(s)[m] == v;
      assert s[m + 1] == v;
    }
  }

  /** Linking `v` in between two neighbours that bracket it keeps the order. */
  lemma SpliceIncreasing(s: seq<int>, w: nat, v: int)
    requires Increasing(s) && 0 < w < |s| && s[w - 1] < v < s[w]
    ensures Increasing(s[..w] + [v] + s[w..])
  {
    var r := s[..w] + [v] + s[w..];
    forall i, j | 0 <= i < j < |r| ensures r[i] < r[j] {
      if i < w && w < j {
        assert r[i] == s[i] && r[j] == s[j - 1];
        assert s[i] <= s[w - 1] && s[w] <= s[j - 1];
      } else if i < w && j == w {
        assert s[i] <= s[w - 1];
      } else if i == w {
        assert s[w] <= s[j - 1];
      }
    }
  }

  /** Linking a value in at position `w` of a full list links it in at position `w - 1` of its interior. */
  lemma InteriorSplice(s: seq<int>, w: nat, v: int)
    requires 1 <= w < |s|
    ensures Interior(s[..w] + [v] + s[w..]) == Interior(s)[..w - 1] + [v] + Interior(s)[w - 1..]
  {
    var r := s[..w] + [v] + s[w..];
    var c := Interior(s);
    forall k | 0 <= k < |c| + 1 ensures Interior(r)[k] == (c[..w - 1] + [v] + c[w - 1..])[k] {
      if k > w - 1 {
        assert Interior(r)[k] == s[k] == c[k - 1];
      }
    }
  }

  /** Cutting out position `w` of a full list cuts out position `w - 1` of its interior. */
  lemma InteriorCut(s: seq<int>, w: nat)
    requires 1 <= w < |s| - 1
    ensures Interior(s[..w] + s[w + 1..]) == Interior(s)[..w - 1] + Interior(s)[w..]
  {
    var r := s[..w] + s[w + 1..];
    var c := Interior(s);
    forall k | 0 <= k < |c| - 1 ensures Interior(r)[k] == (c[..w - 1] + c[w..])[k] {
      if k >= w - 1 {
        assert Interior(r)[k] == s[k + 2] == c[k + 1];
      }
    }
  }

  /** Cutting out one position keeps the order. */
  lemma CutIncreasing(s: seq<int>, w: nat)
    requires Increasing(s) && w < |s|
    ensures Increasing(s[..w] + s[w + 1..])
  {
    var r := s[..w] + s[w + 1..];
    forall i, j | 0 <= i < j < |r| ensures r[i] < r[j] {
      if j < w {
      } else if i < w {
        assert r[j] == s[j + 1];
      } else {
        assert r[i] == s[i + 1] && r[j] == s[j + 1];
      }
    }
  }

  /** Linking `v` in at index `w`, between two neighbours that bracket it, is the abstract Insert. */
  lemma SpliceAt(s: seq<int>, w: nat, v: int)
    requires Framed(s) && 1 <= w < |s| && s[w - 1] < v < s[w]
    ensures Framed(s[..w] + [v] + s[w..])
    ensures Interior(s[..w] + [v] + s[w..]) == Insert(Interior(s), v)
  {
    var c := Interior(s);
    SpliceIncreasing(s, w, v);
    forall k | 0 <= k < w - 1 ensures c[k] < v {
      assert s[k + 1] <= s[w - 1];
    }
    forall k | w - 1 <= k < |c| ensures v < c[k] {
      assert s[w] <= s[k + 1];
    }
    InsertAt(c, v, w - 1);
    InteriorSplice(s, w, v);
  }

  /** Cutting out the interior index `w` is the abstract Delete of its value. */
  lemma CutAt(s: seq<int>, w: nat)
    requires Framed(s) && 1 <= w < |s| - 1
    ensures Framed(s[..w] + s[w + 1..])
    ensures Interior(s[..w] + s[w + 1..]) == Delete(Interior(s), s[w])
  {
    var c := Interior(s);
    CutIncreasing(s, w);
    assert Increasing(c);
    assert c[w - 1] == s[w];
    DeleteAt(c, w - 1);
    InteriorCut(s, w);
  }

  /** In a list that holds only legal values, `add` as written is the abstract Insert and keeps the list well formed. */
  lemma AddRefinesInsert(s: seq<int>, v: int)
    requires Framed(s) && InRange(v)
    ensures Framed(AddAsWritten(s, v))
    ensures Interior(AddAsWritten(s, v)) == Insert(Interior(s), v)
  {
    var w := Window(s, v, 1);
    WindowBounds(s, v, 1);
    WindowFindsMember(s, v);
    if s[w] != v {
      assert AddAsWritten(s, v) == s[..w] + [v] + s[w..];
      SpliceAt(s, w, v);
    } else {
      assert AddAsWritten(s, v) == s;
      InsertPresent(Interior(s), v);
    }
  }

  /** In a list that holds only legal values, `remove` as written is the abstract Delete and keeps the list well formed. */
  lemma RemoveRefinesDelete(s: seq<int>, v: int)
    requires Framed(s) && InRange(v)
    ensures Framed(RemoveAsWritten(s, v))
    ensures Interior(RemoveAsWritten(s, v)) == Delete(Interior(s), v)
  {
    var w := Window(s, v, 1);
    WindowBounds(s, v, 1);
    WindowFindsMember(s, v);
    if s[w] == v {
      assert RemoveAsWritten(s, v) == s[..w] + s[w + 1..];
      CutAt(s, w);
    } else {
      assert RemoveAsWritten(s, v) == s;
      DeleteAbsent(Interior(s), v);
    }
  }

  /** A successful add links `v` in right after index `i`, the window's predecessor. */
  lemma SpliceRefines(s: seq<int>, v: int, i: nat)
    requires Framed(s) && InRange(v)
    requires i + 1 == Window(s, v, 1) && s[i + 1] != v
    ensures Framed(s[..i + 1] + [v] + s[i + 1..])
    ensures Interior(s[..i + 1] + [v] + s[i + 1..]) == Insert(Interior(s), v)
  {
    WindowBounds(s, v, 1);
    SpliceAt(s, i + 1, v);
  }

  /** A successful remove cuts out index `i + 1`, the window's node. */
  lemma CutRefines(s: seq<int>, v: int, i: nat)
    requires Framed(s) && InRange(v)
    requires i + 1 == Window(s, v, 1) && s[i + 1] == v
    ensures Framed(s[..i + 1] + s[i + 2..])
    ensures Interior(s[..i + 1] + s[i + 2..]) == Delete(Interior(s), v)
  {
    WindowBounds(s, v, 1);
    CutAt(s, i + 1);
  }

  /**
   * Why the argument must exclude the head sentinel: `add(MIN_VALUE)` stops
   * at the head's successor, finds a different value there, and links a
   * second MIN_VALUE node right after the head, so the order breaks.
   */
  lemma AddMinBreaksOrder(s: seq<int>)
    requires Framed(s)
    ensures AddAsWritten(s, MIN_VALUE) == [MIN_VALUE] + s
    ensures !Increasing(AddAsWritten(s, MIN_VALUE))
  {
    assert Window(s, MIN_VALUE, 1) == 1;
    assert s[1] != MIN_VALUE by { assert s[0] < s[1]; }
    assert s[..1] == [MIN_VALUE];
    var r := AddAsWritten(s, MIN_VALUE);
    assert r[0] == r[1];
  }

  /**
   * Why the argument must exclude the tail sentinel: `remove(MAX_VALUE)`
   * stops at the tail, finds MAX_VALUE there, and unlinks the tail itself.
   */
  lemma RemoveMaxUnlinksTail(s: seq<int>)
    requires Framed(s)
    ensures RemoveAsWritten(s, MAX_VALUE) == s[..|s| - 1]
    ensures MAX_VALUE !in RemoveAsWritten(s, MAX_VALUE)
  {
    WindowBounds(s, MAX_VALUE, 1);
    var w := Window(s, MAX_VALUE, 1);
    assert w == |s| - 1;
    var r := RemoveAsWritten(s, MAX_VALUE);
    forall k | 0 <= k < |r| ensures r[k] != MAX_VALUE {
      assert s[k] < s[|s| - 1];
    }
  }

  /** The walk of `validate()` extends the checked prefix by one value above the last one. */
  lemma IncreasingExtend(s: seq<int>, i: nat)
    requires 0 < i < |s| && Increasing(s[..i]) && s[i - 1] < s[i]
    ensures Increasing(s[..i + 1])
  {
    var t := s[..i + 1];
    forall x, y | 0 <= x < y < i + 1 ensures t[x] < t[y] {
      if y < i {
        assert s[..i][x] < s[..i][y];
      } else if x < i - 1 {
        assert s[..i][x] < s[..i][i - 1];
      }
    }
  }

  // ---------------------------------------------------------------------------
  // Which nodes a splice or a cut keeps
  // ---------------------------------------------------------------------------

  /** Splicing an element in keeps every old element and adds only that one. */
  lemma SpliceMembers<T>(s: seq<T>, i: nat, x: T)
    requires i < |s|
    ensures forall y :: y in s[..i + 1] + [x] + s[i + 1..] ==> y in s || y == x
  {
    var r := s[..i + 1] + [x] + s[i + 1..];
    forall y | y in r ensures y in s || y == x {
      var k :| 0 <= k < |r| && r[k] == y;
      if k <= i {
        assert s[k] == y;
      } else if k > i + 1 {
        assert s[k - 1] == y;
      }
    }
  }

  /** Cutting out an element keeps only old elements. */
  lemma CutMembers<T>(s: seq<T>, i: nat)
    requires i + 1 < |s|
    ensures forall y :: y in s[..i + 1] + s[i + 2..] ==> y in s
  {
    var r := s[..i + 1] + s[i + 2..];
    forall y | y in r ensures y in s {
      var k :| 0 <= k < |r| && r[k] == y;
      if k <= i {
        assert s[k] == y;
      } else {
        assert s[k + 1] == y;
      }
    }
  }

  // ---------------------------------------------------------------------------
  // Insert and Delete around a known position
  // ---------------------------------------------------------------------------

  /** Inserting `v` between a part below it and a part above it. */
  lemma {:induction false} InsertBetween(a: seq<int>, b: seq<int>, v: int)
    requires forall k :: 0 <= k < |a| ==> a[k] < v
    requires forall k :: 0 <= k < |b| ==> v < b[k]
    ensures Insert(a + b, v) == a + [v] + b
  {
    if a == [] {
      assert a + b == b && a + [v] + b == [v] + b;
    } else {
      var s := a + b;
      assert s[0] == a[0] && s[1..] == a[1..] + b;
      InsertBetween(a[1..], b, v);
      assert a + [v] + b == [a[0]] + (a[1..] + [v] + b);
    }
  }

  /** Inserting a value that follows a part below it changes nothing. */
  lemma {:induction false} InsertFound(a: seq<int>, b: seq<int>, v: int)
    requires forall k :: 0 <= k < |a| ==> a[k] < v
    ensures Insert(a + [v] + b, v) == a + [v] + b
  {
    var s := a + [v] + b;
    if a == [] {
      assert s == [v] + b && s[0] == v;
    } else {
      assert s[0] == a[0] && s[1..] == a[1..] + [v] + b;
      InsertFound(a[1..], b, v);
    }
  }

  /** Deleting a value that follows a part without it cuts out exactly that value. */
  lemma {:induction false} DeleteFound(a: seq<int>, b: seq<int>, v: int)
    requires v !in a
    ensures Delete(a + [v] + b, v) == a + b
  {
    var s := a + [v] + b;
    if a == [] {
      assert s == [v] + b && s[0] == v && s[1..] == b;
    } else {
      assert s[0] == a[0] && s[1..] == a[1..] + [v] + b;
      assert v !in a[1..];
      DeleteFound(a[1..], b, v);
      assert a + b == [a[0]] + (a[1..] + b);
    }
  }
}
