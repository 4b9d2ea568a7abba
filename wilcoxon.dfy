/**
 * The Wilcoxon signed-rank pipeline for paired samples: the two groups are
 * matched row by row, so they must be the same size.
 */
module Wilcoxon {
  import opened Wrappers
  import opened Frames
  import opened ResultTable
  import Significance

  const UnequalSampleSizes := "Unequal Sample Sizes"

  /**
   * One signed-rank test per feature column between the rows labelled
   * `targetGroups[0]` and those labelled `targetGroups[1]`, then dropna, one
   * correction over the surviving p-values, the flag and provenance columns,
   * and the sort by corrected p-value. Fails when the groups differ in size,
   * which the first column already shows since group sizes depend only on
   * the attribute column.
   */
  method GenWilcoxonData(data: seq<Feature>, md: map<string, seq<AttrValue>>, wilcoxonAttribute: string,
                         targetGroups: seq<AttrValue>, alternative: Alternative, pCorrection: string,
                         signedRankTest: StatTest, multicomp: Corrector)
    returns (r: Result<seq<ResultRow>, string>)
    requires wilcoxonAttribute in md
    requires |data| > 0
    requires DistinctFeatures(data)
    requires Aligned(data, md[wilcoxonAttribute])
    requires |targetGroups| == 2
    requires LengthPreserving(multicomp, pCorrection)
    ensures var attr := md[wilcoxonAttribute];
      r.Failure? <==> GroupSize(attr, targetGroups[0]) != GroupSize(attr, targetGroups[1])
    ensures r.Failure? ==> r.error == UnequalSampleSizes
    ensures r.Success? ==>
      var cands := RunTests(data, md[wilcoxonAttribute], targetGroups[0], targetGroups[1], alternative, signedRankTest);
      && IsSortedPermutation(r.value, Table(cands, wilcoxonAttribute, targetGroups[0], targetGroups[1], pCorrection, multicomp))
      && ReturnedTableFacts(r.value, cands, wilcoxonAttribute, targetGroups[0], targetGroups[1])
  {
    var attr := md[wilcoxonAttribute];
    var results: seq<Candidate> := [];
    for j := 0 to |data|
      invariant j > 0 ==> GroupSize(attr, targetGroups[0]) == GroupSize(attr, targetGroups[1])
      invariant |results| == j
      invariant forall k :: 0 <= k < j ==> results[k] == TestColumn(data[k], attr, targetGroups[0], targetGroups[1], alternative, signedRankTest)
    {
      var group1 := SelectGroup(data[j].values, attr, targetGroups[0]);
      var group2 := SelectGroup(data[j].values, attr, targetGroups[1]);
      if |group1| != |group2| {
        return Failure(UnequalSampleSizes);
      }
      results := results + [Candidate(data[j].name, signedRankTest(group1, group2, alternative))];
    }
    var cands := RunTests(data, attr, targetGroups[0], targetGroups[1], alternative, signedRankTest);
    assert results == cands;
    var kept := DropNA(results);
    var corrected := multicomp(PVals(kept), pCorrection);
    var table := Annotate(kept, corrected, wilcoxonAttribute, targetGroups[0], targetGroups[1]);
    var sorted := SortByPCorrected(table);
    RunTestsNames(data, attr, targetGroups[0], targetGroups[1], alternative, signedRankTest);
    ReturnedTable(sorted, cands, wilcoxonAttribute, targetGroups[0], targetGroups[1], pCorrection, multicomp);
    r := Success(sorted);
  }

  /** The symbol over the box plot of `metabolite`: the cascade applied to the row's corrected p-value. */
  function BoxplotSymbol(dfWilcoxon: seq<ResultRow>, metabolite: string): (symbol: string)
    requires DistinctNames(dfWilcoxon)
    requires exists i :: 0 <= i < |dfWilcoxon| && dfWilcoxon[i].metabolite == metabolite
    ensures forall i :: 0 <= i < |dfWilcoxon| && dfWilcoxon[i].metabolite == metabolite ==>
      && symbol == Significance.Symbol(dfWilcoxon[i].pCorrected)
      && (symbol == "ns" <==> dfWilcoxon[i].pCorrected >= 0.05)
  {
    Significance.Symbol(PCorrectedOf(dfWilcoxon, metabolite))
  }
}
