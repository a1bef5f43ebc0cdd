/**
 * The feature matcher (src/image_matcher.cpp). Every `find_topN_matches_*`
 * routine looks the target image up among the file names read from the
 * feature file, scores every other row against the target's row with one
 * metric, sorts the `(score, index)` pairs and pushes the names of the
 * first N of them onto `output`. `main` validates its arguments and
 * dispatches on the metric name.
 *
 * The `output` vector is modelled as the value it holds on entry and the
 * value it holds on return; the status code is returned beside it.
 */
module Matcher {
  import opened Sums
  import opened Sorting
  import opened Ranking
  import Distance

  // ---------------------------------------------------------------------
  // Target lookup (src/image_matcher.cpp:18-50)
  // ---------------------------------------------------------------------

  /** The directory the cosine-family lookups put in front of every stored name. */
  const ImageDir: string := "../olympus/"

  /** The stored names as full paths, as the cosine-family lookup builds them. */
  function WithDir(filenames: seq<string>): (paths: seq<string>)
    ensures |paths| == |filenames|
  {
    seq(|filenames|, k requires 0 <= k < |filenames| => ImageDir + filenames[k])
  }

  /** `find_target_index`: the first row whose name equals the target, or -1. */
  method FindTargetIndex(target: string, filenames: seq<string>) returns (targetIndex: int)
    ensures targetIndex == IndexOf(filenames, target)
  {
    targetIndex := -1;
    var i := 0;
    while i < |filenames|
      invariant 0 <= i <= |filenames|
      invariant forall k :: 0 <= k < i ==> filenames[k] != target
    {
      if filenames[i] == target {
        targetIndex := i;
        break;
      }
      i := i + 1;
    }
  }

  /**
   * `find_target_index_cosine`: the first row whose name, with the image
   * directory in front, equals the target, or -1.
   */
  method FindTargetIndexCosine(target: string, filenames: seq<string>) returns (targetIndex: int)
    ensures targetIndex == IndexOf(WithDir(filenames), target)
  {
    targetIndex := -1;
    var i := 0;
    while i < |filenames|
      invariant 0 <= i <= |filenames|
      invariant forall k :: 0 <= k < i ==> WithDir(filenames)[k] != target
    {
      var fullpath := ImageDir + filenames[i];
      assert WithDir(filenames)[i] == fullpath;
      if fullpath == target {
        targetIndex := i;
        break;
      }
      i := i + 1;
    }
  }

  ghost predicate InImageDir(target: string)
  {
    |ImageDir| <= |target| && target[..|ImageDir|] == ImageDir
  }

  /** Two lookups agree when the same positions match. */
  lemma IndexOfDetermined(a: seq<string>, x: string, b: seq<string>, y: string)
    requires |a| == |b|
    requires forall k :: 0 <= k < |a| ==> (a[k] == x <==> b[k] == y)
    ensures IndexOf(a, x) == IndexOf(b, y)
  {
  }

  /**
   * The cosine-family lookup finds a row only for a target inside the image
   * directory, and then the row the plain lookup finds for the target with
   * the directory stripped.
   */
  lemma CosineLookupStripsDir(filenames: seq<string>, target: string)
    ensures IndexOf(WithDir(filenames), target)
      == if InImageDir(target) then IndexOf(filenames, target[|ImageDir|..]) else -1
  {
    if InImageDir(target) {
      var rest := target[|ImageDir|..];
      assert target == ImageDir + rest;
      forall k | 0 <= k < |filenames|
        ensures WithDir(filenames)[k] == target <==> filenames[k] == rest
      {
        var p := WithDir(filenames)[k];
        assert p == ImageDir + filenames[k];
        if p == target {
          assert filenames[k] == p[|ImageDir|..];
        }
      }
      IndexOfDetermined(WithDir(filenames), target, filenames, rest);
    } else {
      forall k | 0 <= k < |filenames|
        ensures WithDir(filenames)[k] != target
      {
        var p := WithDir(filenames)[k];
        assert p[..|ImageDir|] == ImageDir;
      }
    }
  }

  // ---------------------------------------------------------------------
  // The scores of each metric
  // ---------------------------------------------------------------------

  /** `calculate_ssd(data[i], target)` reads the target at every index of row i. */
  ghost predicate SsdRowsFit(data: seq<seq<real>>, t: int)
  {
    0 <= t < |data| ==> forall i :: 0 <= i < |data| ==> |data[i]| <= |data[t]|
  }

  /** The split distances slice the target at half of row i's length. */
  ghost predicate SplitRowsFit(data: seq<seq<real>>, rows: nat, t: int)
  {
    0 <= t < |data| ==> forall i :: 0 <= i < rows && i < |data| ==> |data[i]| / 2 <= |data[t]|
  }

  function SsdScores(data: seq<seq<real>>, t: int, root: real -> real): (scores: seq<real>)
    requires 0 <= t < |data| && SsdRowsFit(data, t)
    ensures |scores| == |data|
  {
    seq(|data|, i requires 0 <= i < |data| => Distance.Ssd(data[i], data[t], root))
  }

  function HistScores(data: seq<seq<real>>, t: int): (scores: seq<real>)
    requires 0 <= t < |data|
    ensures |scores| == |data|
  {
    seq(|data|, i requires 0 <= i < |data| => Distance.Intersection(data[i], data[t]))
  }

  function MultiHistScores(data: seq<seq<real>>, t: int): (scores: seq<real>)
    requires 0 <= t < |data| && SplitRowsFit(data, |data|, t)
    ensures |scores| == |data|
  {
    seq(|data|, i requires 0 <= i < |data| => Distance.MultiHistDistance(data[i], data[t]))
  }

  function TextureColorScores(data: seq<seq<real>>, t: int): (scores: seq<real>)
    requires 0 <= t < |data| && SplitRowsFit(data, |data|, t)
    ensures |scores| == |data|
  {
    seq(|data|, i requires 0 <= i < |data| => Distance.TextureColorDistance(data[i], data[t]))
  }

  function CosineScores(data: seq<seq<real>>, t: int, root: real -> real): (scores: seq<real>)
    requires 0 <= t < |data| && Distance.IsSqrt(root)
    ensures |scores| == |data|
  {
    seq(|data|, i requires 0 <= i < |data| => Distance.CosineDistance(data[i], data[t], root))
  }

  /** The depth score: 0.8 of the network-embedding cosine plus 0.2 of the texture-colour distance. */
  function DepthScores(data: seq<seq<real>>, rnnData: seq<seq<real>>, t: int, root: real -> real): (scores: seq<real>)
    requires 0 <= t < |rnnData| <= |data| && SplitRowsFit(data, |rnnData|, t)
    requires Distance.IsSqrt(root)
    ensures |scores| == |rnnData|
  {
    seq(|rnnData|, i requires 0 <= i < |rnnData| =>
      Distance.CosineDistance(rnnData[i], rnnData[t], root) * 0.8
      + Distance.TextureColorDistance(data[i], data[t]) * 0.2)
  }

  /** The blob score as written: half the embedding cosine distance plus half the blob intersection. */
  function BananaScore(cosine: real, intersection: real): real
  {
    cosine * 0.5 + intersection * 0.5
  }

  /** Every row's score: `combine` of its embedding cosine distance and its blob intersection with the target. */
  function BlobScores(data: seq<seq<real>>, rnnData: seq<seq<real>>, t: int, root: real -> real,
                      combine: (real, real) -> real): (scores: seq<real>)
    requires 0 <= t < |rnnData| <= |data|
    requires Distance.IsSqrt(root)
    ensures |scores| == |rnnData|
  {
    seq(|rnnData|, i requires 0 <= i < |rnnData| =>
      combine(Distance.CosineDistance(rnnData[i], rnnData[t], root), Distance.Intersection(data[i], data[t])))
  }

  function BananaScores(data: seq<seq<real>>, rnnData: seq<seq<real>>, t: int, root: real -> real): seq<real>
    requires 0 <= t < |rnnData| <= |data|
    requires Distance.IsSqrt(root)
  {
    BlobScores(data, rnnData, t, root, BananaScore)
  }

  /**
   * The blob loop reads the last column, counted on row 0, of every row
   * other than the target's.
   */
  ghost predicate BananaRowsFit(data: seq<seq<real>>, rnnData: seq<seq<real>>, t: int)
  {
    0 <= t < |rnnData| <= |data| ==>
      forall i :: 0 <= i < |rnnData| && i != t ==> 0 < |data[0]| <= |data[i]|
  }

  /** The blob loop skips the target and every row whose blob count (last column) is zero. */
  function BananaKeep(data: seq<seq<real>>, rnnData: seq<seq<real>>, t: int): (keep: seq<bool>)
    requires 0 <= t < |rnnData| <= |data| && BananaRowsFit(data, rnnData, t)
    ensures |keep| == |rnnData|
  {
    assert forall i :: 0 <= i < |rnnData| && i != t ==> 0 < |data[0]| <= |data[i]|;
    seq(|rnnData|, i requires 0 <= i < |rnnData| => i != t && data[i][|data[0]| - 1] != 0.0)
  }

  // ---------------------------------------------------------------------
  // What each routine emits on success
  // ---------------------------------------------------------------------

  function Ascending(scores: seq<real>, keep: seq<bool>, n: int, filenames: seq<string>): seq<string>
    requires |scores| == |keep| <= |filenames|
  {
    AscLeIsLinear();
    NamesAt(filenames, MatchIndices(scores, keep, AscLe, n))
  }

  function Descending(scores: seq<real>, keep: seq<bool>, n: int, filenames: seq<string>): seq<string>
    requires |scores| == |keep| <= |filenames|
  {
    DescLeIsLinear();
    NamesAt(filenames, MatchIndices(scores, keep, DescLe, n))
  }

  // ---------------------------------------------------------------------
  // The routines (src/image_matcher.cpp:56-291)
  // ---------------------------------------------------------------------

  /** What `find_topN_matches_ssd` and `_hist` read: the target row and one name per row. */
  ghost predicate PlainFits(target: string, filenames: seq<string>, data: seq<seq<real>>)
  {
    IndexOf(filenames, target) < |data| <= |filenames|
  }

  /** What the cosine routine reads: the same, with the directory-prefixed lookup. */
  ghost predicate CosineFits(target: string, filenames: seq<string>, data: seq<seq<real>>)
  {
    IndexOf(WithDir(filenames), target) < |data| <= |filenames|
  }

  /** What the depth and blob routines read: both tables indexed up to the embedding table's size. */
  ghost predicate PairedFits(target: string, filenames: seq<string>, data: seq<seq<real>>, rnnData: seq<seq<real>>)
  {
    && IndexOf(WithDir(filenames), target) < |rnnData|
    && |rnnData| <= |data|
    && |rnnData| <= |filenames|
  }

  /**
   * `find_topN_matches_ssd`: ascending SSD to the target row; the names are
   * appended to what `output` already holds.
   */
  method FindTopNMatchesSsd(target: string, filenames: seq<string>, data: seq<seq<real>>, n: int,
                            output: seq<string>, root: real -> real)
    returns (result: int, newOutput: seq<string>)
    requires PlainFits(target, filenames, data)
    requires SsdRowsFit(data, IndexOf(filenames, target))
    ensures result == -1 <==> target !in filenames
    ensures result == -1 ==> newOutput == output
    ensures result != -1 ==> result == 0
    ensures result != -1 ==>
      var t := IndexOf(filenames, target);
      newOutput == output + Ascending(SsdScores(data, t, root), AllBut(|data|, t), n, filenames)
  {
    var t := FindTargetIndex(target, filenames);
    if t == -1 {
      return -1, output;
    }
    var distances := ScoreSsdRows(data, t, root);
    AscLeIsLinear();
    newOutput := RankAndEmit(distances, SsdScores(data, t, root), AllBut(|data|, t), AscLe, n, filenames, output);
    result := 0;
  }

  /** The scoring loop of the SSD routines: (SSD to the target, row) for every row but the target. */
  method ScoreSsdRows(data: seq<seq<real>>, t: int, root: real -> real) returns (distances: seq<Pair>)
    requires 0 <= t < |data| && SsdRowsFit(data, t)
    ensures distances == Candidates(SsdScores(data, t, root), AllBut(|data|, t))
  {
    ghost var scores := SsdScores(data, t, root);
    ghost var keep := AllBut(|data|, t);
    distances := [];
    var i := 0;
    while i < |data|
      invariant 0 <= i <= |data|
      invariant distances == Candidates(scores[..i], keep[..i])
    {
      CandidatesStep(scores, keep, i);
      if i != t {
        var dist := Distance.CalculateSsd(data[i], data[t], root);
        distances := distances + [Pair(dist, i)];
      }
      i := i + 1;
    }
    assert scores[..i] == scores && keep[..i] == keep;
  }

  /**
   * `find_topN_matches_hist`: intersection with the target row, sorted
   * through reverse iterators, so the largest intersection comes first;
   * the names are appended.
   */
  method FindTopNMatchesHist(target: string, filenames: seq<string>, data: seq<seq<real>>, n: int,
                             output: seq<string>)
    returns (result: int, newOutput: seq<string>)
    requires PlainFits(target, filenames, data)
    ensures result == -1 <==> target !in filenames
    ensures result == -1 ==> newOutput == output
    ensures result != -1 ==> result == 0
    ensures result != -1 ==>
      var t := IndexOf(filenames, target);
      newOutput == output + Descending(HistScores(data, t), AllBut(|data|, t), n, filenames)
  {
    var t := FindTargetIndex(target, filenames);
    if t == -1 {
      return -1, output;
    }
    var distances := ScoreHistRows(data, t);
    DescLeIsLinear();
    newOutput := RankAndEmit(distances, HistScores(data, t), AllBut(|data|, t), DescLe, n, filenames, output);
    result := 0;
  }

  /** The scoring loop of `find_topN_matches_hist`: (histogram intersection with the target, row) for every row but the target. */
  method ScoreHistRows(data: seq<seq<real>>, t: int) returns (distances: seq<Pair>)
    requires 0 <= t < |data|
    ensures distances == Candidates(HistScores(data, t), AllBut(|data|, t))
  {
    ghost var scores := HistScores(data, t);
    ghost var keep := AllBut(|data|, t);
    distances := [];
    var i := 0;
    while i < |data|
      invariant 0 <= i <= |data|
      invariant distances == Candidates(scores[..i], keep[..i])
    {
      CandidatesStep(scores, keep, i);
      if i != t {
        var dist := Distance.CalculateHistogramIntersection(data[i], data[t]);
        distances := distances + [Pair(dist, i)];
      }
      i := i + 1;
    }
    assert scores[..i] == scores && keep[..i] == keep;
  }

  /** `find_topN_matches_multiHist`: ascending multi-histogram distance; the names are appended. */
  method FindTopNMatchesMultiHist(target: string, filenames: seq<string>, data: seq<seq<real>>, n: int,
                                  output: seq<string>)
    returns (result: int, newOutput: seq<string>)
    requires PlainFits(target, filenames, data)
    requires SplitRowsFit(data, |data|, IndexOf(filenames, target))
    ensures result == -1 <==> target !in filenames
    ensures result == -1 ==> newOutput == output
    ensures result != -1 ==> result == 0
    ensures result != -1 ==>
      var t := IndexOf(filenames, target);
      newOutput == output + Ascending(MultiHistScores(data, t), AllBut(|data|, t), n, filenames)
  {
    var t := FindTargetIndex(target, filenames);
    if t == -1 {
      return -1, output;
    }
    var distances := ScoreMultiHistRows(data, t);
    AscLeIsLinear();
    newOutput := RankAndEmit(distances, MultiHistScores(data, t), AllBut(|data|, t), AscLe, n, filenames, output);
    result := 0;
  }

  /** The scoring loop of `find_topN_matches_multiHist`: (multi-histogram distance to the target, row) for every row but the target. */
  method ScoreMultiHistRows(data: seq<seq<real>>, t: int) returns (distances: seq<Pair>)
    requires 0 <= t < |data| && SplitRowsFit(data, |data|, t)
    ensures distances == Candidates(MultiHistScores(data, t), AllBut(|data|, t))
  {
    ghost var scores := MultiHistScores(data, t);
    ghost var keep := AllBut(|data|, t);
    distances := [];
    var i := 0;
    while i < |data|
      invariant 0 <= i <= |data|
      invariant distances == Candidates(scores[..i], keep[..i])
    {
      CandidatesStep(scores, keep, i);
      if i != t {
        var dist := Distance.MultiHistDistance(data[i], data[t]);
        distances := distances + [Pair(dist, i)];
      }
      i := i + 1;
    }
    assert scores[..i] == scores && keep[..i] == keep;
  }

  /** `find_topN_matches_textureColor`: ascending texture-colour distance; `output` is cleared first. */
  method FindTopNMatchesTextureColor(target: string, filenames: seq<string>, data: seq<seq<real>>, n: int,
                                     output: seq<string>)
    returns (result: int, newOutput: seq<string>)
    requires PlainFits(target, filenames, data)
    requires SplitRowsFit(data, |data|, IndexOf(filenames, target))
    ensures result == -1 <==> target !in filenames
    ensures result == -1 ==> newOutput == output
    ensures result != -1 ==> result == 0
    ensures result != -1 ==>
      var t := IndexOf(filenames, target);
      newOutput == Ascending(TextureColorScores(data, t), AllBut(|data|, t), n, filenames)
  {
    var t := FindTargetIndex(target, filenames);
    if t == -1 {
      return -1, output;
    }
    var distances := ScoreTextureColorRows(data, t);
    AscLeIsLinear();
    newOutput := RankAndEmit(distances, TextureColorScores(data, t), AllBut(|data|, t), AscLe, n, filenames, []);
    result := 0;
  }

  /** The scoring loop of `find_topN_matches_textureColor`: (texture-colour distance to the target, row) for every row but the target. */
  method ScoreTextureColorRows(data: seq<seq<real>>, t: int) returns (distances: seq<Pair>)
    requires 0 <= t < |data| && SplitRowsFit(data, |data|, t)
    ensures distances == Candidates(TextureColorScores(data, t), AllBut(|data|, t))
  {
    ghost var scores := TextureColorScores(data, t);
    ghost var keep := AllBut(|data|, t);
    distances := [];
    var i := 0;
    while i < |data|
      invariant 0 <= i <= |data|
      invariant distances == Candidates(scores[..i], keep[..i])
    {
      CandidatesStep(scores, keep, i);
      if i != t {
        var dist := Distance.TextureColorDistance(data[i], data[t]);
        distances := distances + [Pair(dist, i)];
      }
      i := i + 1;
    }
    assert scores[..i] == scores && keep[..i] == keep;
  }

  /**
   * `find_topN_matches_cosine`: directory-prefixed lookup, ascending cosine
   * distance; `output` is cleared first.
   */
  method FindTopNMatchesCosine(target: string, filenames: seq<string>, data: seq<seq<real>>, n: int,
                               output: seq<string>, root: real -> real)
    returns (result: int, newOutput: seq<string>)
    requires Distance.IsSqrt(root)
    requires CosineFits(target, filenames, data)
    ensures result == -1 <==> target !in WithDir(filenames)
    ensures result == -1 ==> newOutput == output
    ensures result != -1 ==> result == 0
    ensures result != -1 ==>
      var t := IndexOf(WithDir(filenames), target);
      newOutput == Ascending(CosineScores(data, t, root), AllBut(|data|, t), n, filenames)
  {
    var t := FindTargetIndexCosine(target, filenames);
    if t == -1 {
      return -1, output;
    }
    var distances := ScoreCosineRows(data, t, root);
    AscLeIsLinear();
    newOutput := RankAndEmit(distances, CosineScores(data, t, root), AllBut(|data|, t), AscLe, n, filenames, []);
    result := 0;
  }

  /** The scoring loop of `find_topN_matches_cosine`: (cosine distance to the target, row) for every row but the target. */
  method ScoreCosineRows(data: seq<seq<real>>, t: int, root: real -> real) returns (distances: seq<Pair>)
    requires 0 <= t < |data| && Distance.IsSqrt(root)
    ensures distances == Candidates(CosineScores(data, t, root), AllBut(|data|, t))
  {
    ghost var scores := CosineScores(data, t, root);
    ghost var keep := AllBut(|data|, t);
    distances := [];
    var i := 0;
    while i < |data|
      invariant 0 <= i <= |data|
      invariant distances == Candidates(scores[..i], keep[..i])
    {
      CandidatesStep(scores, keep, i);
      if i != t {
        var dist := Distance.CalculateCosineDistance(data[i], data[t], root);
        distances := distances + [Pair(dist, i)];
      }
      i := i + 1;
    }
    assert scores[..i] == scores && keep[..i] == keep;
  }

  /** The scoring loop of `find_topN_matches_depthDNN`, over the rows of the embedding table. */
  method ScoreDepthRows(data: seq<seq<real>>, rnnData: seq<seq<real>>, t: int, root: real -> real)
    returns (distances: seq<Pair>)
    requires Distance.IsSqrt(root)
    requires 0 <= t < |rnnData| <= |data| && SplitRowsFit(data, |rnnData|, t)
    ensures distances == Candidates(DepthScores(data, rnnData, t, root), AllBut(|rnnData|, t))
  {
    ghost var scores := DepthScores(data, rnnData, t, root);
    ghost var keep := AllBut(|rnnData|, t);
    distances := [];
    var i := 0;
    while i < |rnnData|
      invariant 0 <= i <= |rnnData|
      invariant distances == Candidates(scores[..i], keep[..i])
    {
      CandidatesStep(scores, keep, i);
      if i != t {
        var cosine := Distance.CalculateCosineDistance(rnnData[i], rnnData[t], root);
        var dist1 := cosine * 0.8;
        var dist2 := Distance.TextureColorDistance(data[i], data[t]) * 0.2;
        distances := distances + [Pair(dist1 + dist2, i)];
      }
      i := i + 1;
    }
    assert scores[..i] == scores && keep[..i] == keep;
  }

  /**
   * The scoring loop of `find_topN_matches_banana`: the target and rows
   * with a zero blob count are skipped.
   */
  method ScoreBlobRows(data: seq<seq<real>>, rnnData: seq<seq<real>>, t: int, root: real -> real,
                       combine: (real, real) -> real)
    returns (distances: seq<Pair>)
    requires Distance.IsSqrt(root)
    requires 0 <= t < |rnnData| <= |data| && BananaRowsFit(data, rnnData, t)
    ensures distances == Candidates(BlobScores(data, rnnData, t, root, combine), BananaKeep(data, rnnData, t))
  {
    ghost var scores := BlobScores(data, rnnData, t, root, combine);
    ghost var keep := BananaKeep(data, rnnData, t);
    var col := |data[0]|;
    distances := [];
    var i := 0;
    while i < |rnnData|
      invariant 0 <= i <= |rnnData|
      invariant distances == Candidates(scores[..i], keep[..i])
    {
      CandidatesStep(scores, keep, i);
      if i != t && data[i][col - 1] != 0.0 {
        var cosine := Distance.CalculateCosineDistance(rnnData[i], rnnData[t], root);
        var intersection := Distance.CalculateHistogramIntersection(data[i], data[t]);
        distances := distances + [Pair(combine(cosine, intersection), i)];
      }
      i := i + 1;
    }
    assert scores[..i] == scores && keep[..i] == keep;
  }

  /**
   * `find_topN_matches_depthDNN`: directory-prefixed lookup, rows of the
   * embedding table scored by 0.8 cosine + 0.2 texture colour, ascending;
   * `output` is cleared first. A size mismatch of the two tables is only
   * reported, so nothing here depends on it.
   */
  method FindTopNMatchesDepthDnn(target: string, filenames: seq<string>, data: seq<seq<real>>,
                                 rnnData: seq<seq<real>>, n: int, output: seq<string>, root: real -> real)
    returns (result: int, newOutput: seq<string>)
    requires Distance.IsSqrt(root)
    requires PairedFits(target, filenames, data, rnnData)
    requires SplitRowsFit(data, |rnnData|, IndexOf(WithDir(filenames), target))
    ensures result == -1 <==> target !in WithDir(filenames)
    ensures result == -1 ==> newOutput == output
    ensures result != -1 ==> result == 0
    ensures result != -1 ==>
      var t := IndexOf(WithDir(filenames), target);
      newOutput == Ascending(DepthScores(data, rnnData, t, root), AllBut(|rnnData|, t), n, filenames)
  {
    var t := FindTargetIndexCosine(target, filenames);
    if t == -1 {
      return -1, output;
    }
    var distances := ScoreDepthRows(data, rnnData, t, root);
    AscLeIsLinear();
    newOutput := RankAndEmit(distances, DepthScores(data, rnnData, t, root), AllBut(|rnnData|, t),
                             AscLe, n, filenames, []);
    result := 0;
  }

  /**
   * `find_topN_matches_banana`: directory-prefixed lookup; rows other than
   * the target whose blob count is non-zero are scored by half the
   * embedding cosine distance plus half the blob intersection, ascending;
   * `output` is cleared first.
   */
  method FindTopNMatchesBanana(target: string, filenames: seq<string>, data: seq<seq<real>>,
                               rnnData: seq<seq<real>>, n: int, output: seq<string>, root: real -> real)
    returns (result: int, newOutput: seq<string>)
    requires Distance.IsSqrt(root)
    requires PairedFits(target, filenames, data, rnnData)
    requires BananaRowsFit(data, rnnData, IndexOf(WithDir(filenames), target))
    ensures result == -1 <==> target !in WithDir(filenames)
    ensures result == -1 ==> newOutput == output
    ensures result != -1 ==> result == 0
    ensures result != -1 ==>
      var t := IndexOf(WithDir(filenames), target);
      newOutput == Ascending(BananaScores(data, rnnData, t, root), BananaKeep(data, rnnData, t), n, filenames)
  {
    var t := FindTargetIndexCosine(target, filenames);
    if t == -1 {
      return -1, output;
    }
    var distances := ScoreBlobRows(data, rnnData, t, root, BananaScore);
    AscLeIsLinear();
    newOutput := RankAndEmit(distances, BananaScores(data, rnnData, t, root), BananaKeep(data, rnnData, t),
                             AscLe, n, filenames, []);
    result := 0;
  }

  /**
   * `find_topN_matches_banana` with the intended score `BananaDistance`:
   * everything else (lookup, skipped rows, ascending order, clearing
   * `output`) as written.
   */
  method FindTopNMatchesBananaCorrected(target: string, filenames: seq<string>, data: seq<seq<real>>,
                                        rnnData: seq<seq<real>>, n: int, output: seq<string>, root: real -> real)
    returns (result: int, newOutput: seq<string>)
    requires Distance.IsSqrt(root)
    requires PairedFits(target, filenames, data, rnnData)
    requires BananaRowsFit(data, rnnData, IndexOf(WithDir(filenames), target))
    ensures result == -1 <==> target !in WithDir(filenames)
    ensures result == -1 ==> newOutput == output
    ensures result != -1 ==> result == 0
    ensures result != -1 ==>
      var t := IndexOf(WithDir(filenames), target);
      newOutput == Ascending(BlobScores(data, rnnData, t, root, BananaDistance), BananaKeep(data, rnnData, t), n, filenames)
  {
    var t := FindTargetIndexCosine(target, filenames);
    if t == -1 {
      return -1, output;
    }
    var distances := ScoreBlobRows(data, rnnData, t, root, BananaDistance);
    AscLeIsLinear();
    newOutput := RankAndEmit(distances, BlobScores(data, rnnData, t, root, BananaDistance),
                             BananaKeep(data, rnnData, t), AscLe, n, filenames, []);
    result := 0;
  }

  // ---------------------------------------------------------------------
  // Properties of the routines' results
  // ---------------------------------------------------------------------

  /**
   * Every routine that skips only the target: the target's row is never
   * emitted, exactly min(N, rows - 1) names are, and no row left out has a
   * smaller score than an emitted one (ties go to the smaller index).
   */
  lemma AscendingResultShape(scores: seq<real>, t: int, n: int, filenames: seq<string>)
    requires 0 <= t < |scores| <= |filenames|
    ensures TotalPreorder(AscLe)
    ensures var idx := MatchIndices(scores, AllBut(|scores|, t), AscLe, n);
      && Ascending(scores, AllBut(|scores|, t), n, filenames) == NamesAt(filenames, idx)
      && |idx| == EmitCount(n, |scores| - 1)
      && (forall k :: 0 <= k < |idx| ==> idx[k] != t)
      && (forall k, j :: 0 <= k < |idx| && 0 <= j < |scores| && j != t && j !in idx ==>
            scores[idx[k]] <= scores[j] && (scores[idx[k]] == scores[j] ==> idx[k] < j))
  {
    AscLeIsLinear();
    TargetNeverEmitted(scores, t, AscLe, n);
    AscendingMatchesAreNearest(scores, AllBut(|scores|, t), n);
  }

  /**
   * The RGB-histogram routine: the target's row is never emitted, exactly
   * min(N, rows - 1) names are, and no row left out has a larger
   * intersection than an emitted one (ties go to the larger index).
   */
  lemma DescendingResultShape(scores: seq<real>, t: int, n: int, filenames: seq<string>)
    requires 0 <= t < |scores| <= |filenames|
    ensures TotalPreorder(DescLe)
    ensures var idx := MatchIndices(scores, AllBut(|scores|, t), DescLe, n);
      && Descending(scores, AllBut(|scores|, t), n, filenames) == NamesAt(filenames, idx)
      && |idx| == EmitCount(n, |scores| - 1)
      && (forall k :: 0 <= k < |idx| ==> idx[k] != t)
      && (forall k, j :: 0 <= k < |idx| && 0 <= j < |scores| && j != t && j !in idx ==>
            scores[j] <= scores[idx[k]] && (scores[idx[k]] == scores[j] ==> j < idx[k]))
  {
    DescLeIsLinear();
    TargetNeverEmitted(scores, t, DescLe, n);
    DescendingMatchesAreLargest(scores, AllBut(|scores|, t), n);
  }

  /**
   * The blob routine: only rows other than the target with a non-zero blob
   * count are emitted, and at most N of them.
   */
  lemma BananaResultShape(data: seq<seq<real>>, rnnData: seq<seq<real>>, t: int, n: int, root: real -> real)
    requires 0 <= t < |rnnData| <= |data| && BananaRowsFit(data, rnnData, t)
    requires Distance.IsSqrt(root)
    ensures TotalPreorder(AscLe)
    ensures var idx := MatchIndices(BananaScores(data, rnnData, t, root), BananaKeep(data, rnnData, t), AscLe, n);
      && |idx| <= (if n <= 0 then 0 else n)
      && forall k :: 0 <= k < |idx| ==> idx[k] != t && data[idx[k]][|data[0]| - 1] != 0.0
  {
    AscLeIsLinear();
  }

  // ---------------------------------------------------------------------
  // The blob score's direction
  // ---------------------------------------------------------------------

  /**
   * As written, the blob score adds a similarity (the intersection) to a
   * distance and is sorted ascending: of two rows with the same embedding
   * distance, the one whose blob histogram is identical to the target's
   * ranks after one that shares less of it.
   */
  lemma BananaRanksIdenticalBlobsLast()
    ensures var target := [1.0, 5.0];
      var same := [1.0, 5.0];
      var other := [0.0, 5.0];
      && Distance.Intersection(same, target) == 6.0
      && Distance.Intersection(other, target) == 5.0
      && forall c: real ::
        AscLe(Pair(BananaScore(c, Distance.Intersection(other, target)), 2),
              Pair(BananaScore(c, Distance.Intersection(same, target)), 1))
        && !AscLe(Pair(BananaScore(c, Distance.Intersection(same, target)), 1),
                  Pair(BananaScore(c, Distance.Intersection(other, target)), 2))
  {
    var target := [1.0, 5.0];
    assert [1.0, 5.0][..1] == [1.0] && [0.0, 5.0][..1] == [0.0] && [1.0][..0] == [] && [0.0][..0] == [];
    assert Distance.SumMin([1.0], [1.0]) == 1.0;
    assert Distance.SumMin([0.0], [1.0]) == 0.0;
    assert Distance.Intersection([1.0, 5.0], target) == 6.0;
    assert Distance.Intersection([0.0, 5.0], target) == 5.0;
  }

  /**
   * The evidently intended blob score: half the embedding distance plus
   * half the blob distance `1 - intersection`.
   */
  function BananaDistance(cosine: real, intersection: real): real
  {
    cosine * 0.5 + (1.0 - intersection) * 0.5
  }

  /**
   * With the intended score, a larger blob intersection or a smaller
   * embedding distance never ranks a row later; the as-written score does
   * the opposite for the intersection.
   */
  lemma BananaDistancePrefersSimilarBlobs(c1: real, i1: real, c2: real, i2: real)
    requires c1 <= c2 && i2 <= i1
    ensures BananaDistance(c1, i1) <= BananaDistance(c2, i2)
    ensures c1 == c2 && i2 < i1 ==> BananaDistance(c1, i1) < BananaDistance(c2, i2)
    ensures c1 == c2 && i2 < i1 ==> BananaScore(c2, i2) < BananaScore(c1, i1)
  {
  }

  /**
   * With the intended score, a kept row left out never has both a smaller
   * embedding distance and a larger blob intersection than an emitted one:
   * among rows at the same embedding distance, the ones sharing more of the
   * target's blobs come first.
   */
  lemma BananaCorrectedRanksSimilarBlobsFirst(data: seq<seq<real>>, rnnData: seq<seq<real>>, t: int, n: int,
                                              root: real -> real)
    requires 0 <= t < |rnnData| <= |data| && BananaRowsFit(data, rnnData, t)
    requires Distance.IsSqrt(root)
    ensures TotalPreorder(AscLe)
    ensures var keep := BananaKeep(data, rnnData, t);
      var idx := MatchIndices(BlobScores(data, rnnData, t, root, BananaDistance), keep, AscLe, n);
      forall k, j :: 0 <= k < |idx| && 0 <= j < |rnnData| && keep[j] && j !in idx ==>
        var e := idx[k];
        !(Distance.CosineDistance(rnnData[j], rnnData[t], root) == Distance.CosineDistance(rnnData[e], rnnData[t], root)
          && Distance.Intersection(data[e], data[t]) < Distance.Intersection(data[j], data[t]))
  {
    AscLeIsLinear();
    var keep := BananaKeep(data, rnnData, t);
    var scores := BlobScores(data, rnnData, t, root, BananaDistance);
    AscendingMatchesAreNearest(scores, keep, n);
    var idx := MatchIndices(scores, keep, AscLe, n);
    forall k, j | 0 <= k < |idx| && 0 <= j < |rnnData| && keep[j] && j !in idx
      ensures var e := idx[k];
        !(Distance.CosineDistance(rnnData[j], rnnData[t], root) == Distance.CosineDistance(rnnData[e], rnnData[t], root)
          && Distance.Intersection(data[e], data[t]) < Distance.Intersection(data[j], data[t]))
    {
      var e := idx[k];
      var ce, ie := Distance.CosineDistance(rnnData[e], rnnData[t], root), Distance.Intersection(data[e], data[t]);
      var cj, ij := Distance.CosineDistance(rnnData[j], rnnData[t], root), Distance.Intersection(data[j], data[t]);
      assert scores[e] == BananaDistance(ce, ie) && scores[j] == BananaDistance(cj, ij);
      if cj == ce && ie < ij {
        BananaDistancePrefersSimilarBlobs(cj, ij, ce, ie);
      }
    }
  }

  // ---------------------------------------------------------------------
  // main: validation and dispatch (src/image_matcher.cpp:308-390)
  // ---------------------------------------------------------------------

  datatype Option<T> = None | Some(value: T)

  datatype Metric = Ssd | RgbHist | MultiHist | TextureColor | Cosine | Depth | Banana | Gabor

  /** The command-line spelling of each metric. */
  function MetricName(m: Metric): string
  {
    match m
    case Ssd => "ssd"
    case RgbHist => "rgb-hist"
    case MultiHist => "multi-hist"
    case TextureColor => "texture-color"
    case Cosine => "cosine"
    case Depth => "depth"
    case Banana => "banana"
    case Gabor => "gabor"
  }

  /** The metric-name check: one of the eight accepted spellings, or nothing. */
  function ParseMetric(name: string): Option<Metric>
  {
    if name == "ssd" then Some(Ssd)
    else if name == "rgb-hist" then Some(RgbHist)
    else if name == "multi-hist" then Some(MultiHist)
    else if name == "texture-color" then Some(TextureColor)
    else if name == "cosine" then Some(Cosine)
    else if name == "depth" then Some(Depth)
    else if name == "banana" then Some(Banana)
    else if name == "gabor" then Some(Gabor)
    else None
  }

  /** Parsing a name and printing a metric are inverse on the accepted names. */
  lemma ParseMetricRoundTrip(name: string, m: Metric)
    ensures ParseMetric(MetricName(m)) == Some(m)
    ensures ParseMetric(name) == Some(m) <==> name == MetricName(m)
  {
  }

  /** Why `main` stops before any feature file is read. */
  datatype Checked = Usage | InvalidN | InvalidMetric | Accepted(metric: Metric)

  /**
   * The checks in order: at least four arguments after the program name,
   * then a positive N, then a known metric name.
   */
  function CheckArguments(argc: int, n: int, metricName: string): (r: Checked)
    ensures r.Accepted? <==> 5 <= argc && 0 < n && ParseMetric(metricName).Some?
    ensures r.Accepted? ==> ParseMetric(metricName) == Some(r.metric)
    ensures argc < 5 ==> r == Usage
  {
    if argc < 5 then Usage
    else if n <= 0 then InvalidN
    else match ParseMetric(metricName)
      case None => InvalidMetric
      case Some(m) => Accepted(m)
  }

  /** A feature table as the CSV reader returns it: one name and one row per image. */
  datatype Table = Table(names: seq<string>, rows: seq<seq<real>>)

  /** The names the routine of `m` sees: the embedding reader appends its names to the same vector. */
  function NamesFor(m: Metric, csv: Table, rnn: Table): seq<string>
  {
    if m == Depth || m == Banana then csv.names + rnn.names else csv.names
  }

  /** The row of the target as the routine of `m` looks it up; "gabor" has no routine. */
  function TargetRow(m: Metric, target: string, csv: Table, rnn: Table): int
  {
    match m
    case Ssd | RgbHist | MultiHist | TextureColor => IndexOf(csv.names, target)
    case Cosine | Depth | Banana => IndexOf(WithDir(NamesFor(m, csv, rnn)), target)
    case Gabor => -1
  }

  /** What the routine of `m` reads of the tables. */
  ghost predicate Fits(m: Metric, target: string, csv: Table, rnn: Table)
  {
    var names := NamesFor(m, csv, rnn);
    match m
    case Ssd => PlainFits(target, names, csv.rows) && SsdRowsFit(csv.rows, IndexOf(names, target))
    case RgbHist => PlainFits(target, names, csv.rows)
    case MultiHist | TextureColor =>
      PlainFits(target, names, csv.rows) && SplitRowsFit(csv.rows, |csv.rows|, IndexOf(names, target))
    case Cosine => CosineFits(target, names, csv.rows)
    case Depth =>
      PairedFits(target, names, csv.rows, rnn.rows)
      && SplitRowsFit(csv.rows, |rnn.rows|, IndexOf(WithDir(names), target))
    case Banana =>
      PairedFits(target, names, csv.rows, rnn.rows)
      && BananaRowsFit(csv.rows, rnn.rows, IndexOf(WithDir(names), target))
    case Gabor => true
  }

  /* ---------------- The lookup over appended names ---------------- */

  /** A name absent from `a` is found in `a + b` at its position in `b`, shifted by |a|. */
  lemma {:induction false} IndexOfAfter(a: seq<string>, b: seq<string>, x: string)
    requires x !in a
    ensures IndexOf(a + b, x) == if x in b then |a| + IndexOf(b, x) else -1
    decreases |a|
  {
    if |a| == 0 {
      assert a + b == b;
    } else {
      assert (a + b)[0] == a[0] && (a + b)[1..] == a[1..] + b;
      assert x !in a[1..];
      IndexOfAfter(a[1..], b, x);
    }
  }

  /**
   * As written, "depth" and "banana" look the target up among the
   * feature-file names followed by the embedding names. When no
   * feature-file name matches, the row found is the target's position
   * among the embedding names shifted by the number of feature-file names.
   */
  lemma AppendedLookupOffset(m: Metric, target: string, csv: Table, rnn: Table)
    requires m == Depth || m == Banana
    requires target !in WithDir(csv.names)
    ensures TargetRow(m, target, csv, rnn)
         == if target in WithDir(rnn.names) then |csv.names| + IntendedTargetRow(target, rnn) else -1
  {
    assert WithDir(csv.names + rnn.names) == WithDir(csv.names) + WithDir(rnn.names);
    IndexOfAfter(WithDir(csv.names), WithDir(rnn.names), target);
  }

  /**
   * That row lies past the feature table, so the routine's reads of
   * `data[target_index]` and `rnnData[target_index]` leave both tables.
   */
  lemma AppendedLookupPastTables(m: Metric, target: string, csv: Table, rnn: Table)
    requires m == Depth || m == Banana
    requires target !in WithDir(csv.names) && target in WithDir(rnn.names)
    requires |csv.rows| <= |csv.names|
    ensures |csv.rows| <= TargetRow(m, target, csv, rnn)
    ensures !Fits(m, target, csv, rnn)
  {
    AppendedLookupOffset(m, target, csv, rnn);
  }

  /**
   * The feature writer stores each image under its full path and the
   * embedding table under its bare name: the target "../olympus/a.jpg" is
   * found at row 2 of two-row tables.
   */
  lemma FeatureWriterNamesOverrunTables()
    ensures var csv := Table(["../olympus/a.jpg", "../olympus/b.jpg"], [[1.0], [1.0]]);
            var rnn := Table(["a.jpg", "b.jpg"], [[1.0], [1.0]]);
            && TargetRow(Depth, "../olympus/a.jpg", csv, rnn) == 2
            && TargetRow(Banana, "../olympus/a.jpg", csv, rnn) == 2
            && !Fits(Depth, "../olympus/a.jpg", csv, rnn)
            && !Fits(Banana, "../olympus/a.jpg", csv, rnn)
  {
    var csv := Table(["../olympus/a.jpg", "../olympus/b.jpg"], [[1.0], [1.0]]);
    var rnn := Table(["a.jpg", "b.jpg"], [[1.0], [1.0]]);
    var target := "../olympus/a.jpg";
    assert |ImageDir| == 11 && |target| == 16;
    assert |WithDir(csv.names)[0]| == 27 && |WithDir(csv.names)[1]| == 27;
    assert target !in WithDir(csv.names);
    assert WithDir(rnn.names)[0] == ImageDir + "a.jpg" == target;
    assert IntendedTargetRow(target, rnn) == 0;
    AppendedLookupPastTables(Depth, target, csv, rnn);
    AppendedLookupPastTables(Banana, target, csv, rnn);
  }

  /** The intended lookup: the target's row among the embedding names, whose positions index both tables. */
  function IntendedTargetRow(target: string, rnn: Table): int
  {
    IndexOf(WithDir(rnn.names), target)
  }

  /**
   * "depth" and "banana" with the intended lookup: the target is looked
   * up among the embedding names only, and those names are emitted. For
   * every target the routine's reads stay inside both tables, and the
   * routine fails only when no embedding name matches.
   */
  method RunPairedCorrected(m: Metric, target: string, csv: Table, rnn: Table, n: int, root: real -> real)
    returns (result: int, output: seq<string>)
    requires m == Depth || m == Banana
    requires Distance.IsSqrt(root)
    requires |rnn.names| == |rnn.rows| <= |csv.rows|
    requires m == Depth ==> SplitRowsFit(csv.rows, |rnn.rows|, IntendedTargetRow(target, rnn))
    requires m == Banana ==> BananaRowsFit(csv.rows, rnn.rows, IntendedTargetRow(target, rnn))
    ensures result == -1 <==> target !in WithDir(rnn.names)
    ensures result == -1 ==> output == []
    ensures result != -1 ==>
      var t := IntendedTargetRow(target, rnn);
      && result == 0
      && 0 <= t < |rnn.rows| <= |csv.rows|
      && output == if m == Depth
                   then Ascending(DepthScores(csv.rows, rnn.rows, t, root), AllBut(|rnn.rows|, t), n, rnn.names)
                   else Ascending(BananaScores(csv.rows, rnn.rows, t, root), BananaKeep(csv.rows, rnn.rows, t), n, rnn.names)
  {
    if m == Depth {
      result, output := FindTopNMatchesDepthDnn(target, rnn.names, csv.rows, rnn.rows, n, [], root);
    } else {
      result, output := FindTopNMatchesBanana(target, rnn.names, csv.rows, rnn.rows, n, [], root);
    }
  }

  /** The names `main` ends up with when the routine of `m` succeeds. */
  function Dispatched(m: Metric, target: string, csv: Table, rnn: Table, n: int, root: real -> real): seq<string>
    requires Fits(m, target, csv, rnn) && Distance.IsSqrt(root)
    requires 0 <= TargetRow(m, target, csv, rnn)
  {
    var names := NamesFor(m, csv, rnn);
    var data := csv.rows;
    var t := TargetRow(m, target, csv, rnn);
    match m
    case Ssd => Ascending(SsdScores(data, t, root), AllBut(|data|, t), n, names)
    case RgbHist => Descending(HistScores(data, t), AllBut(|data|, t), n, names)
    case MultiHist => Ascending(MultiHistScores(data, t), AllBut(|data|, t), n, names)
    case TextureColor => Ascending(TextureColorScores(data, t), AllBut(|data|, t), n, names)
    case Cosine => Ascending(CosineScores(data, t, root), AllBut(|data|, t), n, names)
    case Depth => Ascending(DepthScores(data, rnn.rows, t, root), AllBut(|rnn.rows|, t), n, names)
    case Banana => Ascending(BananaScores(data, rnn.rows, t, root), BananaKeep(data, rnn.rows, t), n, names)
  }

  /**
   * `main` up to the display: argument checks, the feature-file read
   * (`csv`, or `None` when it fails), the metric dispatch with the
   * embedding file read for "depth" and "banana" (`rnn`), and the final
   * status check. Returns the process status and the matched names.
   */
  method RunMatcher(argc: int, n: int, metricName: string, target: string,
                    csv: Option<Table>, rnn: Option<Table>, root: real -> real)
    returns (status: int, output: seq<string>)
    requires Distance.IsSqrt(root)
    requires CheckArguments(argc, n, metricName).Accepted? && csv.Some? ==>
      var m := CheckArguments(argc, n, metricName).metric;
      (m == Depth || m == Banana) && rnn.Some? ==> Fits(m, target, csv.value, rnn.value)
    requires CheckArguments(argc, n, metricName).Accepted? && csv.Some? ==>
      var m := CheckArguments(argc, n, metricName).metric;
      m != Depth && m != Banana ==> Fits(m, target, csv.value, Table([], []))
    ensures status == 0 || status == -1
    ensures !CheckArguments(argc, n, metricName).Accepted? ==> status == -1
    ensures ParseMetric(metricName) == Some(Gabor) ==> status == -1
    ensures status == 0 <==>
      && CheckArguments(argc, n, metricName).Accepted?
      && csv.Some?
      && var m := CheckArguments(argc, n, metricName).metric;
         var r := if m == Depth || m == Banana then rnn else Some(Table([], []));
         && r.Some?
         && 0 <= TargetRow(m, target, csv.value, r.value)
    ensures status == 0 ==>
      var m := CheckArguments(argc, n, metricName).metric;
      var r := if m == Depth || m == Banana then rnn.value else Table([], []);
      output == Dispatched(m, target, csv.value, r, n, root)
  {
    var checked := CheckArguments(argc, n, metricName);
    if !checked.Accepted? {
      return -1, [];
    }
    if csv.None? {
      return -1, [];
    }
    var filenames := csv.value.names;
    var data := csv.value.rows;
    var m := checked.metric;
    var result := -1;
    output := [];
    match m {
      case Ssd =>
        result, output := FindTopNMatchesSsd(target, filenames, data, n, output, root);
      case RgbHist =>
        result, output := FindTopNMatchesHist(target, filenames, data, n, output);
      case MultiHist =>
        result, output := FindTopNMatchesMultiHist(target, filenames, data, n, output);
      case TextureColor =>
        result, output := FindTopNMatchesTextureColor(target, filenames, data, n, output);
      case Depth =>
        if rnn.None? {
          return -1, [];
        }
        filenames := filenames + rnn.value.names;
        result, output := FindTopNMatchesDepthDnn(target, filenames, data, rnn.value.rows, n, output, root);
      case Cosine =>
        result, output := FindTopNMatchesCosine(target, filenames, data, n, output, root);
      case Banana =>
        if rnn.None? {
          return -1, [];
        }
        filenames := filenames + rnn.value.names;
        result, output := FindTopNMatchesBanana(target, filenames, data, rnn.value.rows, n, output, root);
      case Gabor =>
    }
    if result != 0 {
      return -1, output;
    }
    status := 0;
  }
}
