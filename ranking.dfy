/**
 * The retrieval engine shared by every `find_topN_matches*` routine of the
 * two matchers: look the target up by file name, score every other row,
 * sort the `(score, index)` pairs with `std::sort`, and push the file
 * names of the first N pairs onto the output vector.
 *
 * The score of each row is abstracted as a sequence `scores` (one entry
 * per row) and the rows that are scored at all as a sequence of flags
 * `keep`; the matchers instantiate both with their metrics.
 */
module Ranking {
  import opened Sorting

  /** A `std::pair<float, int>`: the score of a row and the row's index. */
  datatype Pair = Pair(score: real, index: int)

  /** `std::pair`'s own order: by score, ties broken by the smaller index. */
  predicate AscLe(p: Pair, q: Pair)
  {
    p.score < q.score || (p.score == q.score && p.index <= q.index)
  }

  /**
   * The order `sort(rbegin(), rend())` leaves a vector in: `AscLe` read
   * from the back, so larger scores first and, among equal scores, larger
   * indices first.
   */
  predicate DescLe(p: Pair, q: Pair)
  {
    AscLe(q, p)
  }

  lemma AscLeIsLinear()
    ensures TotalPreorder(AscLe) && Antisymmetric(AscLe)
  {
  }

  lemma DescLeIsLinear()
    ensures TotalPreorder(DescLe) && Antisymmetric(DescLe)
  {
  }

  // ---------------------------------------------------------------------
  // Target lookup
  // ---------------------------------------------------------------------

  /** The first position holding `target`, or -1 when there is none. */
  function IndexOf(names: seq<string>, target: string): (r: int)
    ensures -1 <= r < |names|
    ensures r == -1 <==> target !in names
    ensures 0 <= r ==> names[r] == target && forall k :: 0 <= k < r ==> names[k] != target
  {
    if |names| == 0 then -1
    else if names[0] == target then 0
    else
      var r := IndexOf(names[1..], target);
      assert names == [names[0]] + names[1..];
      if r == -1 then -1 else r + 1
  }

  // ---------------------------------------------------------------------
  // Scoring
  // ---------------------------------------------------------------------

  /**
   * The pairs the scoring loop pushes: `(scores[i], i)` for every row i
   * whose flag is set, in row order.
   */
  function Candidates(scores: seq<real>, keep: seq<bool>): seq<Pair>
    requires |scores| == |keep|
  {
    if |scores| == 0 then []
    else
      var n := |scores| - 1;
      Candidates(scores[..n], keep[..n]) + (if keep[n] then [Pair(scores[n], n)] else [])
  }

  /** Number of set flags. */
  function CountKept(keep: seq<bool>): nat
  {
    if |keep| == 0 then 0 else CountKept(keep[..|keep| - 1]) + (if keep[|keep| - 1] then 1 else 0)
  }

  /** The flags of the ordinary loops: every row except the target's. */
  function AllBut(n: nat, t: int): (keep: seq<bool>)
    ensures |keep| == n
  {
    seq(n, i => i != t)
  }

  ghost predicate IsCandidate(p: Pair, scores: seq<real>, keep: seq<bool>)
    requires |scores| == |keep|
  {
    0 <= p.index < |scores| && keep[p.index] && p.score == scores[p.index]
  }

  /** Skipping exactly the target row scores all the other rows. */
  lemma {:induction false} CountAllBut(n: nat, t: int)
    ensures CountKept(AllBut(n, t)) == if 0 <= t < n then n - 1 else n
  {
    if n > 0 {
      assert AllBut(n, t)[..n - 1] == AllBut(n - 1, t);
      CountAllBut(n - 1, t);
    }
  }

  /**
   * One pair per kept row and nothing else: a pair is pushed exactly when
   * its index is a kept row and its score is that row's score.
   */
  lemma {:induction false} CandidatesMembers(scores: seq<real>, keep: seq<bool>)
    requires |scores| == |keep|
    ensures |Candidates(scores, keep)| == CountKept(keep)
    ensures forall p :: p in Candidates(scores, keep) <==> IsCandidate(p, scores, keep)
  {
    if |scores| > 0 {
      var n := |scores| - 1;
      CandidatesMembers(scores[..n], keep[..n]);
      forall p
        ensures p in Candidates(scores, keep) <==> IsCandidate(p, scores, keep)
      {
        if 0 <= p.index < n {
          assert keep[..n][p.index] == keep[p.index];
          assert scores[..n][p.index] == scores[p.index];
        }
      }
    }
  }

  /** One more turn of the scoring loop pushes at most the pair of row i. */
  lemma CandidatesStep(scores: seq<real>, keep: seq<bool>, i: nat)
    requires |scores| == |keep| && i < |scores|
    ensures Candidates(scores[..i + 1], keep[..i + 1])
      == Candidates(scores[..i], keep[..i]) + (if keep[i] then [Pair(scores[i], i)] else [])
  {
    assert scores[..i + 1][..i] == scores[..i];
    assert keep[..i + 1][..i] == keep[..i];
  }

  // ---------------------------------------------------------------------
  // Sorting and emitting
  // ---------------------------------------------------------------------

  /** Number of names the emitting loop pushes: `i < N && i < size`. */
  function EmitCount(n: int, available: nat): nat
  {
    if n <= 0 then 0 else if n < available then n else available
  }

  /**
   * The row indices whose names are emitted, best first: the first
   * min(N, #pairs) pairs of the sorted candidates.
   */
  function MatchIndices(scores: seq<real>, keep: seq<bool>, le: (Pair, Pair) -> bool, n: int): (idx: seq<int>)
    requires |scores| == |keep|
    requires TotalPreorder(le)
    ensures |idx| == EmitCount(n, CountKept(keep))
    ensures forall k :: 0 <= k < |idx| ==> 0 <= idx[k] < |scores| && keep[idx[k]]
  {
    var ranked := SortSeq(Candidates(scores, keep), le);
    RankedMembers(scores, keep, le);
    seq(EmitCount(n, |ranked|), k requires 0 <= k < EmitCount(n, |ranked|) => ranked[k].index)
  }

  /** The file names at the given row indices. */
  function NamesAt(filenames: seq<string>, idx: seq<int>): (names: seq<string>)
    requires forall k :: 0 <= k < |idx| ==> 0 <= idx[k] < |filenames|
    ensures |names| == |idx|
  {
    seq(|idx|, k requires 0 <= k < |idx| => filenames[idx[k]])
  }

  /** The sorted candidates are the candidates, in order. */
  lemma RankedMembers(scores: seq<real>, keep: seq<bool>, le: (Pair, Pair) -> bool)
    requires |scores| == |keep|
    requires TotalPreorder(le)
    ensures |SortSeq(Candidates(scores, keep), le)| == CountKept(keep)
    ensures SortedBy(SortSeq(Candidates(scores, keep), le), le)
    ensures forall p :: p in SortSeq(Candidates(scores, keep), le) <==> IsCandidate(p, scores, keep)
    ensures forall k :: 0 <= k < |SortSeq(Candidates(scores, keep), le)| ==>
      IsCandidate(SortSeq(Candidates(scores, keep), le)[k], scores, keep)
  {
    CandidatesMembers(scores, keep);
    SortSeqSortsAndPermutes(Candidates(scores, keep), le);
    var c := Candidates(scores, keep);
    forall p
      ensures p in SortSeq(c, le) <==> p in c
    {
      assert p in SortSeq(c, le) <==> p in multiset(SortSeq(c, le));
      assert p in c <==> p in multiset(c);
    }
  }

  /** The k-th emitted pair is the kept row at the k-th emitted index. */
  lemma MatchPairs(scores: seq<real>, keep: seq<bool>, le: (Pair, Pair) -> bool, n: int)
    requires |scores| == |keep|
    requires TotalPreorder(le)
    ensures var ranked := SortSeq(Candidates(scores, keep), le);
      var idx := MatchIndices(scores, keep, le, n);
      |idx| <= |ranked| &&
      forall k :: 0 <= k < |idx| ==> ranked[k] == Pair(scores[idx[k]], idx[k])
  {
    RankedMembers(scores, keep, le);
    var ranked := SortSeq(Candidates(scores, keep), le);
    var idx := MatchIndices(scores, keep, le, n);
    forall k | 0 <= k < |idx|
      ensures ranked[k] == Pair(scores[idx[k]], idx[k])
    {
      assert ranked[k] in ranked;
    }
  }

  /**
   * Sorts the pairs vector in place and pushes the names of its first N
   * pairs onto `output`.
   */
  method RankAndEmit(distances: seq<Pair>, ghost scores: seq<real>, ghost keep: seq<bool>,
                     le: (Pair, Pair) -> bool, n: int, filenames: seq<string>, output: seq<string>)
    returns (newOutput: seq<string>)
    requires |scores| == |keep| && |scores| <= |filenames|
    requires distances == Candidates(scores, keep)
    requires TotalPreorder(le) && Antisymmetric(le)
    ensures newOutput == output + NamesAt(filenames, MatchIndices(scores, keep, le, n))
  {
    var a := new Pair[|distances|](k requires 0 <= k < |distances| => distances[k]);
    assert a[..] == distances;
    SortPairs(a, le);
    MatchPairs(scores, keep, le, n);
    RankedMembers(scores, keep, le);
    var ranked := a[..];
    forall k | 0 <= k < |ranked|
      ensures 0 <= ranked[k].index < |filenames|
    {
      assert IsCandidate(ranked[k], scores, keep);
    }
    newOutput := EmitNames(ranked, n, filenames, output);
    assert NamesAt(filenames, MatchIndices(scores, keep, le, n)) == FirstNames(ranked, n, filenames);
  }

  /** The names of the first min(N, |ranked|) pairs, in order. */
  function FirstNames(ranked: seq<Pair>, n: int, filenames: seq<string>): (names: seq<string>)
    requires forall k :: 0 <= k < |ranked| ==> 0 <= ranked[k].index < |filenames|
    ensures |names| == EmitCount(n, |ranked|)
  {
    seq(EmitCount(n, |ranked|), k requires 0 <= k < EmitCount(n, |ranked|) => filenames[ranked[k].index])
  }

  /** The emitting loop: `for (i = 0; i < N && i < size; i++) push_back(filenames[pairs[i].second])`. */
  method EmitNames(ranked: seq<Pair>, n: int, filenames: seq<string>, output: seq<string>)
    returns (newOutput: seq<string>)
    requires forall k :: 0 <= k < |ranked| ==> 0 <= ranked[k].index < |filenames|
    ensures newOutput == output + FirstNames(ranked, n, filenames)
  {
    newOutput := output;
    var i := 0;
    while i < n && i < |ranked|
      invariant 0 <= i <= EmitCount(n, |ranked|)
      invariant newOutput == output + FirstNames(ranked, n, filenames)[..i]
    {
      newOutput := newOutput + [filenames[ranked[i].index]];
      i := i + 1;
    }
    assert FirstNames(ranked, n, filenames)[..i] == FirstNames(ranked, n, filenames);
  }

  /** `std::sort` on the pairs vector: afterwards it is the sorted candidates. */
  method SortPairs(a: array<Pair>, le: (Pair, Pair) -> bool)
    requires TotalPreorder(le) && Antisymmetric(le)
    modifies a
    ensures a[..] == SortSeq(old(a[..]), le)
  {
    ghost var before := a[..];
    InsertionSort(a, le);
    SortSeqSortsAndPermutes(before, le);
    SortedUnique(a[..], SortSeq(before, le), le);
  }

  // ---------------------------------------------------------------------
  // What the emitted matches are
  // ---------------------------------------------------------------------

  /**
   * The emitted rows are the best: every kept row that is not emitted is
   * ordered after every emitted one.
   */
  lemma MatchesAreBest(scores: seq<real>, keep: seq<bool>, le: (Pair, Pair) -> bool, n: int)
    requires |scores| == |keep|
    requires TotalPreorder(le)
    ensures var idx := MatchIndices(scores, keep, le, n);
      forall k, j :: 0 <= k < |idx| && 0 <= j < |scores| && keep[j] && j !in idx ==>
        le(Pair(scores[idx[k]], idx[k]), Pair(scores[j], j))
  {
    var ranked := SortSeq(Candidates(scores, keep), le);
    var idx := MatchIndices(scores, keep, le, n);
    RankedMembers(scores, keep, le);
    MatchPairs(scores, keep, le, n);
    forall k, j | 0 <= k < |idx| && 0 <= j < |scores| && keep[j] && j !in idx
      ensures le(Pair(scores[idx[k]], idx[k]), Pair(scores[j], j))
    {
      var c := Pair(scores[j], j);
      assert IsCandidate(c, scores, keep);
      var q :| 0 <= q < |ranked| && ranked[q] == c;
      assert |idx| <= q;
      assert le(ranked[k], ranked[q]);
    }
  }

  /** The emitted rows come out in the sort order. */
  lemma MatchesInOrder(scores: seq<real>, keep: seq<bool>, le: (Pair, Pair) -> bool, n: int)
    requires |scores| == |keep|
    requires TotalPreorder(le)
    ensures var idx := MatchIndices(scores, keep, le, n);
      forall k, k' :: 0 <= k < k' < |idx| ==>
        le(Pair(scores[idx[k]], idx[k]), Pair(scores[idx[k']], idx[k']))
  {
    RankedMembers(scores, keep, le);
    MatchPairs(scores, keep, le, n);
  }

  /**
   * Ascending ranking: no skipped-over row has a smaller score, and among
   * equal scores the smaller index is emitted first.
   */
  lemma AscendingMatchesAreNearest(scores: seq<real>, keep: seq<bool>, n: int)
    requires |scores| == |keep|
    ensures TotalPreorder(AscLe)
    ensures var idx := MatchIndices(scores, keep, AscLe, n);
      && (forall k, j :: 0 <= k < |idx| && 0 <= j < |scores| && keep[j] && j !in idx ==>
            scores[idx[k]] <= scores[j] && (scores[idx[k]] == scores[j] ==> idx[k] < j))
      && (forall k, k' :: 0 <= k < k' < |idx| ==>
            scores[idx[k]] <= scores[idx[k']] && (scores[idx[k]] == scores[idx[k']] ==> idx[k] <= idx[k']))
  {
    AscLeIsLinear();
    MatchesAreBest(scores, keep, AscLe, n);
    MatchesInOrder(scores, keep, AscLe, n);
  }

  /**
   * Descending ranking (reverse iterators): no skipped-over row has a
   * larger score, and among equal scores the larger index is emitted first.
   */
  lemma DescendingMatchesAreLargest(scores: seq<real>, keep: seq<bool>, n: int)
    requires |scores| == |keep|
    ensures TotalPreorder(DescLe)
    ensures var idx := MatchIndices(scores, keep, DescLe, n);
      && (forall k, j :: 0 <= k < |idx| && 0 <= j < |scores| && keep[j] && j !in idx ==>
            scores[j] <= scores[idx[k]] && (scores[idx[k]] == scores[j] ==> j < idx[k]))
      && (forall k, k' :: 0 <= k < k' < |idx| ==>
            scores[idx[k']] <= scores[idx[k]] && (scores[idx[k]] == scores[idx[k']] ==> idx[k'] <= idx[k]))
  {
    DescLeIsLinear();
    MatchesAreBest(scores, keep, DescLe, n);
    MatchesInOrder(scores, keep, DescLe, n);
  }

  /**
   * With the target row skipped, the target is never emitted and exactly
   * min(N, rows - 1) names are (none when N <= 0).
   */
  lemma TargetNeverEmitted(scores: seq<real>, t: int, le: (Pair, Pair) -> bool, n: int)
    requires 0 <= t < |scores|
    requires TotalPreorder(le)
    ensures var idx := MatchIndices(scores, AllBut(|scores|, t), le, n);
      && |idx| == EmitCount(n, |scores| - 1)
      && forall k :: 0 <= k < |idx| ==> idx[k] != t
  {
    CountAllBut(|scores|, t);
  }
}
