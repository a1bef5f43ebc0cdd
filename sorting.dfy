/**
 * Sorting as the matcher and the depth-mask code use it (`std::sort` on a
 * vector). The order is given as a "less than or equal" relation `le`:
 * for `(score, index)` pairs that is the lexicographic order of
 * `std::pair`, for depth values the order of the reals.
 *
 * `SortSeq` is the reference definition (an insertion sort on values);
 * `InsertionSort` sorts an array in place. When `le` is antisymmetric a
 * sorted permutation is unique, so the two always agree (`SortedUnique`).
 */
module Sorting {

  ghost predicate TotalPreorder<T(!new)>(le: (T, T) -> bool)
  {
    && (forall x, y :: le(x, y) || le(y, x))
    && (forall x, y, z :: le(x, y) && le(y, z) ==> le(x, z))
  }

  ghost predicate Antisymmetric<T(!new)>(le: (T, T) -> bool)
  {
    forall x, y :: le(x, y) && le(y, x) ==> x == y
  }

  ghost predicate SortedBy<T>(s: seq<T>, le: (T, T) -> bool)
  {
    forall i, j :: 0 <= i < j < |s| ==> le(s[i], s[j])
  }

  /** Inserts `x` before the first element it is `le` to. */
  function Insert<T>(x: T, s: seq<T>, le: (T, T) -> bool): seq<T>
  {
    if |s| == 0 then [x]
    else if le(x, s[0]) then [x] + s
    else [s[0]] + Insert(x, s[1..], le)
  }

  /** Reference sort: insertion sort on values. */
  function SortSeq<T>(s: seq<T>, le: (T, T) -> bool): seq<T>
  {
    if |s| == 0 then [] else Insert(s[0], SortSeq(s[1..], le), le)
  }

  lemma {:induction false} InsertPermutes<T>(x: T, s: seq<T>, le: (T, T) -> bool)
    ensures multiset(Insert(x, s, le)) == multiset(s) + multiset{x}
    ensures |Insert(x, s, le)| == |s| + 1
  {
    if |s| > 0 && !le(x, s[0]) {
      InsertPermutes(x, s[1..], le);
      assert s == [s[0]] + s[1..];
    }
  }

  lemma {:induction false} InsertSorted<T(!new)>(x: T, s: seq<T>, le: (T, T) -> bool)
    requires TotalPreorder(le)
    requires SortedBy(s, le)
    ensures SortedBy(Insert(x, s, le), le)
  {
    if |s| > 0 && !le(x, s[0]) {
      InsertSorted(x, s[1..], le);
      InsertPermutes(x, s[1..], le);
      var r := Insert(x, s[1..], le);
      forall k | 0 <= k < |r|
        ensures le(s[0], r[k])
      {
        assert r[k] in multiset(s[1..]) + multiset{x};
        if r[k] == x {
        } else {
          assert r[k] in multiset(s[1..]);
          var m :| 0 <= m < |s[1..]| && s[1..][m] == r[k];
          assert s[m + 1] == r[k];
        }
      }
    }
  }

  lemma {:induction false} SortSeqSortsAndPermutes<T(!new)>(s: seq<T>, le: (T, T) -> bool)
    requires TotalPreorder(le)
    ensures SortedBy(SortSeq(s, le), le)
    ensures multiset(SortSeq(s, le)) == multiset(s)
    ensures |SortSeq(s, le)| == |s|
  {
    if |s| > 0 {
      SortSeqSortsAndPermutes(s[1..], le);
      InsertSorted(s[0], SortSeq(s[1..], le), le);
      InsertPermutes(s[0], SortSeq(s[1..], le), le);
      assert s == [s[0]] + s[1..];
    }
  }

  /**
   * Two sorted arrangements of the same multiset are the same sequence when
   * `le` is antisymmetric: whichever sort produced them, the result is fixed.
   */
  lemma {:induction false} SortedUnique<T(!new)>(s: seq<T>, t: seq<T>, le: (T, T) -> bool)
    requires TotalPreorder(le) && Antisymmetric(le)
    requires SortedBy(s, le) && SortedBy(t, le)
    requires multiset(s) == multiset(t)
    ensures s == t
    decreases |s|
  {
    if |s| == 0 {
      assert |t| == |multiset(t)| == 0;
    } else {
      assert |t| == |multiset(t)| == |multiset(s)| == |s|;
      assert s[0] in multiset(t);
      var q :| 0 <= q < |t| && t[q] == s[0];
      assert t[0] in multiset(s);
      var p :| 0 <= p < |s| && s[p] == t[0];
      assert le(s[0], s[p]);
      assert le(t[0], t[q]);
      assert s[0] == t[0];
      assert s == [s[0]] + s[1..];
      assert t == [t[0]] + t[1..];
      assert multiset(s) == multiset{s[0]} + multiset(s[1..]);
      assert multiset(t) == multiset{t[0]} + multiset(t[1..]);
      assert multiset(s[1..]) == multiset(s) - multiset{s[0]};
      assert multiset(t[1..]) == multiset(t) - multiset{t[0]};
      SortedUnique(s[1..], t[1..], le);
    }
  }

  /**
   * The state of the inner loop of `InsertionSort`: the first i+1 elements
   * are in order except that the element at j may still belong further
   * left, and it is already `le` everything to its right.
   */
  ghost predicate SiftState<T>(s: seq<T>, i: int, j: int, le: (T, T) -> bool)
    requires 0 <= j <= i < |s|
  {
    && (forall x, y :: 0 <= x < y <= i && x != j && y != j ==> le(s[x], s[y]))
    && (forall y :: j < y <= i ==> le(s[j], s[y]))
  }

  lemma SiftStart<T>(s: seq<T>, i: int, le: (T, T) -> bool)
    requires 0 <= i < |s|
    requires SortedBy(s[..i], le)
    ensures SiftState(s, i, i, le)
  {
    forall x, y | 0 <= x < y <= i && x != i && y != i
      ensures le(s[x], s[y])
    {
      assert s[x] == s[..i][x] && s[y] == s[..i][y];
    }
  }

  lemma SiftSwap<T(!new)>(s: seq<T>, i: int, j: int, le: (T, T) -> bool)
    requires TotalPreorder(le)
    requires 0 < j <= i < |s|
    requires SiftState(s, i, j, le)
    requires !le(s[j - 1], s[j])
    ensures SiftState(s[j - 1 := s[j]][j := s[j - 1]], i, j - 1, le)
  {
    var t := s[j - 1 := s[j]][j := s[j - 1]];
    assert le(s[j], s[j - 1]);
    forall y | j - 1 < y <= i
      ensures le(t[j - 1], t[y])
    {
      if y > j {
        assert t[y] == s[y];
      }
    }
  }

  lemma SiftDone<T(!new)>(s: seq<T>, i: int, j: int, le: (T, T) -> bool)
    requires TotalPreorder(le)
    requires 0 <= j <= i < |s|
    requires SiftState(s, i, j, le)
    requires j == 0 || le(s[j - 1], s[j])
    ensures SortedBy(s[..i + 1], le)
  {
    forall x, y | 0 <= x < y < i + 1
      ensures le(s[x], s[y])
    {
      if y == j && x < j - 1 {
        assert le(s[x], s[j - 1]);
      }
    }
  }

  /** Sorts `a` in place by swapping each new element leftwards into place. */
  method InsertionSort<T(!new)>(a: array<T>, le: (T, T) -> bool)
    requires TotalPreorder(le)
    modifies a
    ensures SortedBy(a[..], le)
    ensures multiset(a[..]) == old(multiset(a[..]))
  {
    var i := 0;
    while i < a.Length
      invariant 0 <= i <= a.Length
      invariant SortedBy(a[..i], le)
      invariant multiset(a[..]) == old(multiset(a[..]))
    {
      SiftStart(a[..], i, le);
      var j := i;
      while j > 0 && !le(a[j - 1], a[j])
        invariant 0 <= j <= i
        invariant multiset(a[..]) == old(multiset(a[..]))
        invariant SiftState(a[..], i, j, le)
      {
        SiftSwap(a[..], i, j, le);
        a[j - 1], a[j] := a[j], a[j - 1];
        j := j - 1;
      }
      SiftDone(a[..], i, j, le);
      i := i + 1;
    }
    assert a[..] == a[..a.Length];
  }
}
