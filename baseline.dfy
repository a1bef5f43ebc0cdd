/**
 * The baseline matcher (src/image_matcher_baseline.cpp): SSD ranking only,
 * with the target lookup written inline. Its routine promises exactly what
 * `Matcher.FindTopNMatchesSsd` promises, so the two agree on every input.
 */
module Baseline {
  import opened Ranking
  import Distance
  import Matcher

  /** `find_topN_matches`: inline lookup, ascending SSD, names appended to `output`. */
  method FindTopNMatches(target: string, filenames: seq<string>, data: seq<seq<real>>, n: int,
                         output: seq<string>, root: real -> real)
    returns (result: int, newOutput: seq<string>)
    requires Matcher.PlainFits(target, filenames, data)
    requires Matcher.SsdRowsFit(data, IndexOf(filenames, target))
    ensures result == -1 <==> target !in filenames
    ensures result == -1 ==> newOutput == output
    ensures result != -1 ==> result == 0
    ensures result != -1 ==>
      var t := IndexOf(filenames, target);
      newOutput == output + Matcher.Ascending(Matcher.SsdScores(data, t, root), AllBut(|data|, t), n, filenames)
  {
    var targetIndex := -1;
    var j := 0;
    while j < |filenames|
      invariant 0 <= j <= |filenames|
      invariant forall k :: 0 <= k < j ==> filenames[k] != target
    {
      if filenames[j] == target {
        targetIndex := j;
        break;
      }
      j := j + 1;
    }
    if targetIndex == -1 {
      return -1, output;
    }
    var t := targetIndex;
    assert t == IndexOf(filenames, target);
    var distances := Matcher.ScoreSsdRows(data, t, root);
    AscLeIsLinear();
    newOutput := RankAndEmit(distances, Matcher.SsdScores(data, t, root), AllBut(|data|, t), AscLe, n,
                             filenames, output);
    result := 0;
  }

  /** The baseline routine and the matcher's SSD routine return the same status and the same names. */
  method AgreesWithMatcherSsd(target: string, filenames: seq<string>, data: seq<seq<real>>, n: int,
                              output: seq<string>, root: real -> real)
    returns (result: int, newOutput: seq<string>, matcherResult: int, matcherOutput: seq<string>)
    requires Matcher.PlainFits(target, filenames, data)
    requires Matcher.SsdRowsFit(data, IndexOf(filenames, target))
    ensures result == matcherResult && newOutput == matcherOutput
  {
    result, newOutput := FindTopNMatches(target, filenames, data, n, output, root);
    matcherResult, matcherOutput := Matcher.FindTopNMatchesSsd(target, filenames, data, n, output, root);
  }

  /** Why the baseline's `main` stops before reading the feature file. */
  datatype Checked = Usage | InvalidN | Accepted

  /** At least three arguments after the program name, then a positive N. */
  function CheckArguments(argc: int, n: int): (r: Checked)
    ensures r == Accepted <==> 4 <= argc && 0 < n
    ensures argc < 4 ==> r == Usage
  {
    if argc < 4 then Usage else if n <= 0 then InvalidN else Accepted
  }

  /**
   * The baseline's `main` up to the display: argument checks, the
   * feature-file read (`csv`, `None` when it fails), the ranking and the
   * status check.
   */
  method RunBaseline(argc: int, n: int, target: string, csv: Matcher.Option<Matcher.Table>, root: real -> real)
    returns (status: int, output: seq<string>)
    requires CheckArguments(argc, n) == Accepted && csv.Some? ==>
      Matcher.PlainFits(target, csv.value.names, csv.value.rows)
      && Matcher.SsdRowsFit(csv.value.rows, IndexOf(csv.value.names, target))
    ensures status == 0 || status == -1
    ensures status == 0 <==> CheckArguments(argc, n) == Accepted && csv.Some? && target in csv.value.names
    ensures status == 0 ==>
      var t := IndexOf(csv.value.names, target);
      output == Matcher.Ascending(Matcher.SsdScores(csv.value.rows, t, root), AllBut(|csv.value.rows|, t),
                                  n, csv.value.names)
  {
    if CheckArguments(argc, n) != Accepted {
      return -1, [];
    }
    if csv.None? {
      return -1, [];
    }
    var result;
    result, output := FindTopNMatches(target, csv.value.names, csv.value.rows, n, [], root);
    if result != 0 {
      return -1, output;
    }
    status := 0;
  }
}
