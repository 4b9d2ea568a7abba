/**
 * The Mann-Whitney U pipeline for independent groups: the two groups may
 * differ in size, so nothing is checked before the tests run.
 */
module Mwu {
  import opened Frames
  import opened ResultTable
  import Significance

  /**
   * One exact Mann-Whitney U test per feature column between the rows
   * labelled `targetGroups[0]` and those labelled `targetGroups[1]`, then
   * dropna, one correction over the surviving p-values, the flag and
   * provenance columns, and the sort by corrected p-value. Always yields a
   * table, whatever the group sizes.
   */
  method GenMwuData(data: seq<Feature>, md: map<string, seq<AttrValue>>, mwuAttribute: string,
                    targetGroups: seq<AttrValue>, alternative: Alternative, pCorrection: string,
                    exactMwu: StatTest, multicomp: Corrector)
    returns (table: seq<ResultRow>)
    requires mwuAttribute in md
    requires |data| > 0
    requires DistinctFeatures(data)
    requires Aligned(data, md[mwuAttribute])
    requires |targetGroups| == 2
    requires LengthPreserving(multicomp, pCorrection)
    ensures var cands := RunTests(data, md[mwuAttribute], targetGroups[0], targetGroups[1], alternative, exactMwu);
      && IsSortedPermutation(table, Table(cands, mwuAttribute, targetGroups[0], targetGroups[1], pCorrection, multicomp))
      && ReturnedTableFacts(table, cands, mwuAttribute, targetGroups[0], targetGroups[1])
  {
    var attr := md[mwuAttribute];
    var results: seq<Candidate> := [];
    for j := 0 to |data|
      invariant |results| == j
      invariant forall k :: 0 <= k < j ==> results[k] == TestColumn(data[k], attr, targetGroups[0], targetGroups[1], alternative, exactMwu)
    {
      var group1 := SelectGroup(data[j].values, attr, targetGroups[0]);
      var group2 := SelectGroup(data[j].values, attr, targetGroups[1]);
      results := results + [Candidate(data[j].name, exactMwu(group1, group2, alternative))];
    }
    var cands := RunTests(data, attr, targetGroups[0], targetGroups[1], alternative, exactMwu);
    assert results == cands;
    var kept := DropNA(results);
    var corrected := multicomp(PVals(kept), pCorrection);
    var annotated := Annotate(kept, corrected, mwuAttribute, targetGroups[0], targetGroups[1]);
    table := SortByPCorrected(annotated);
    RunTestsNames(data, attr, targetGroups[0], targetGroups[1], alternative, exactMwu);
    ReturnedTable(table, cands, mwuAttribute, targetGroups[0], targetGroups[1], pCorrection, multicomp);
  }

  /** The symbol over the box plot of `metabolite`: the cascade applied to the row's corrected p-value. */
  function BoxplotSymbol(dfMwu: seq<ResultRow>, metabolite: string): (symbol: string)
    requires DistinctNames(dfMwu)
    requires exists i :: 0 <= i < |dfMwu| && dfMwu[i].metabolite == metabolite
    ensures forall i :: 0 <= i < |dfMwu| && dfMwu[i].metabolite == metabolite ==>
      && symbol == Significance.Symbol(dfMwu[i].pCorrected)
      && (symbol == "ns" <==> dfMwu[i].pCorrected >= 0.05)
  {
    Significance.Symbol(PCorrectedOf(dfMwu, metabolite))
  }
}
