/**
 * The per-feature result table shared by the paired (Wilcoxon signed-rank)
 * and independent-groups (Mann-Whitney U) pipelines: one test per feature
 * column, rows with a missing value dropped, one vector-wide p-value
 * correction, the significance flag and provenance columns, and the sort by
 * corrected p-value.
 */
module ResultTable {
  import opened Wrappers
  import opened Frames

  /** The alternative hypothesis, applied to every feature's test. */
  datatype Alternative = TwoSided | Greater | Less

  /**
   * The one-row frame a test returns: statistic (W or U), alternative,
   * p-value, rank-biserial correlation and common-language effect size.
   * None stands for NaN.
   */
  datatype TestOutput = TestOutput(stat: Option<real>, alternative: Alternative, pVal: Option<real>,
                                   rbc: Option<real>, cles: Option<real>)

  /** A test output tagged with the feature it was computed for (before dropna). */
  datatype Candidate = Candidate(metabolite: string, out: TestOutput)

  /** A candidate row without missing values. */
  datatype TestRow = TestRow(metabolite: string, stat: real, alternative: Alternative, pVal: real,
                             rbc: real, cles: real)

  /** A row of the returned table, indexed by `metabolite`. */
  datatype ResultRow = ResultRow(metabolite: string, stat: real, alternative: Alternative, pVal: real,
                                 rbc: real, cles: real, pCorrected: real, significance: bool,
                                 attribute: string, a: AttrValue, b: AttrValue)

  /** The statistics library's two-sample test (`pg.wilcoxon`, `pg.mwu`). */
  type StatTest = (seq<Intensity>, seq<Intensity>, Alternative) -> TestOutput

  /** The statistics library's multiple-comparison correction (`pg.multicomp`), given a method name. */
  type Corrector = (seq<real>, string) -> seq<real>

  /** The only thing assumed of the correction: one corrected value per raw p-value. */
  ghost predicate LengthPreserving(correct: Corrector, pCorrection: string)
  {
    forall ps: seq<real> :: |correct(ps, pCorrection)| == |ps|
  }

  /** A row `dropna` keeps: no missing value in any column. */
  predicate Complete(o: TestOutput)
  {
    o.stat.Some? && o.pVal.Some? && o.rbc.Some? && o.cles.Some?
  }

  /** The test run on one feature column, between the two labelled groups. */
  function TestColumn(f: Feature, attr: seq<AttrValue>, a: AttrValue, b: AttrValue,
                      alt: Alternative, test: StatTest): Candidate
    requires |f.values| == |attr|
  {
    Candidate(f.name, test(SelectGroup(f.values, attr, a), SelectGroup(f.values, attr, b), alt))
  }

  /** One candidate row per feature column, in column order. */
  function RunTests(data: seq<Feature>, attr: seq<AttrValue>, a: AttrValue, b: AttrValue,
                    alt: Alternative, test: StatTest): seq<Candidate>
    requires Aligned(data, attr)
  {
    seq(|data|, j requires 0 <= j < |data| => TestColumn(data[j], attr, a, b, alt, test))
  }

  function CompleteMask(cands: seq<Candidate>): seq<bool>
  {
    seq(|cands|, j requires 0 <= j < |cands| => Complete(cands[j].out))
  }

  function ToRow(c: Candidate): TestRow
    requires Complete(c.out)
  {
    TestRow(c.metabolite, c.out.stat.value, c.out.alternative, c.out.pVal.value, c.out.rbc.value, c.out.cles.value)
  }

  /** `dropna()`: the complete candidates, in order. */
  function DropNA(cands: seq<Candidate>): (rows: seq<TestRow>)
    ensures |rows| == |Where(CompleteMask(cands))|
  {
    var mask := CompleteMask(cands);
    MaskedInOrder(cands, mask);
    var kept := Masked(cands, mask);
    seq(|kept|, k requires 0 <= k < |kept| => ToRow(kept[k]))
  }

  /** Row k of the dropna result is the k-th complete candidate; the incomplete ones are gone. */
  lemma DropNAInOrder(cands: seq<Candidate>)
    ensures var rows, ix := DropNA(cands), Where(CompleteMask(cands));
      && |rows| == |ix|
      && (forall k :: 0 <= k < |ix| ==> ix[k] < |cands| && Complete(cands[ix[k]].out) && rows[k] == ToRow(cands[ix[k]]))
      && (forall k, l :: 0 <= k < l < |ix| ==> ix[k] < ix[l])
      && (forall j :: 0 <= j < |cands| && Complete(cands[j].out) ==> j in ix)
  {
    MaskedInOrder(cands, CompleteMask(cands));
  }

  /** The `p-val` column. */
  function PVals(rows: seq<TestRow>): seq<real>
  {
    seq(|rows|, i requires 0 <= i < |rows| => rows[i].pVal)
  }

  /** The five inserted columns: p-corrected, significance, attribute, A and B. */
  function Annotate(rows: seq<TestRow>, corrected: seq<real>, attribute: string, a: AttrValue, b: AttrValue): seq<ResultRow>
    requires |corrected| == |rows|
  {
    seq(|rows|, i requires 0 <= i < |rows| =>
      ResultRow(rows[i].metabolite, rows[i].stat, rows[i].alternative, rows[i].pVal, rows[i].rbc, rows[i].cles,
                corrected[i], corrected[i] < 0.05, attribute, a, b))
  }

  /** The table before sorting: dropna, one correction over the surviving p-values, the inserted columns. */
  function Table(cands: seq<Candidate>, attribute: string, a: AttrValue, b: AttrValue,
                 pCorrection: string, correct: Corrector): seq<ResultRow>
    requires LengthPreserving(correct, pCorrection)
  {
    var kept := DropNA(cands);
    Annotate(kept, correct(PVals(kept), pCorrection), attribute, a, b)
  }

  /**
   * The vector handed to the correction: the raw p-values of the complete
   * candidates, all of them, in column order.
   */
  lemma CorrectionInput(cands: seq<Candidate>)
    ensures var ix, ps := Where(CompleteMask(cands)), PVals(DropNA(cands));
      && |ps| == |ix|
      && (forall k :: 0 <= k < |ix| ==> ix[k] < |cands| && Complete(cands[ix[k]].out) && Some(ps[k]) == cands[ix[k]].out.pVal)
      && (forall k, l :: 0 <= k < l < |ix| ==> ix[k] < ix[l])
      && (forall j :: 0 <= j < |cands| && Complete(cands[j].out) ==> j in ix)
  {
    DropNAInOrder(cands);
  }

  /**
   * The correction's k-th output lands on the k-th row, next to the k-th raw
   * p-value. Every row is read from a distinct complete candidate, and
   * carries the flag `p-corrected < 0.05` and the provenance columns
   * unchanged.
   */
  lemma TableRows(cands: seq<Candidate>, attribute: string, a: AttrValue, b: AttrValue,
                  pCorrection: string, correct: Corrector)
    requires LengthPreserving(correct, pCorrection)
    ensures var t, ix, ps := Table(cands, attribute, a, b, pCorrection, correct), Where(CompleteMask(cands)), PVals(DropNA(cands));
      && |t| == |ix| == |ps|
      && (forall k :: 0 <= k < |t| ==> ix[k] < |cands| && FromCandidate(t[k], cands[ix[k]]))
      && (forall k :: 0 <= k < |t| ==> t[k].pVal == ps[k] && t[k].pCorrected == correct(ps, pCorrection)[k])
      && (forall k :: 0 <= k < |t| ==> Annotated(t[k], attribute, a, b))
  {
    DropNAInOrder(cands);
    var kept, ix := DropNA(cands), Where(CompleteMask(cands));
    var ps := PVals(kept);
    var t := Annotate(kept, correct(ps, pCorrection), attribute, a, b);
    assert t == Table(cands, attribute, a, b, pCorrection, correct);
    forall k | 0 <= k < |t|
      ensures ix[k] < |cands| && FromCandidate(t[k], cands[ix[k]])
    {
      assert kept[k] == ToRow(cands[ix[k]]);
    }
  }

  /** A result row carries the values of the candidate's test output. */
  predicate FromCandidate(r: ResultRow, c: Candidate)
  {
    && r.metabolite == c.metabolite
    && c.out.stat == Some(r.stat) && c.out.alternative == r.alternative && c.out.pVal == Some(r.pVal)
    && c.out.rbc == Some(r.rbc) && c.out.cles == Some(r.cles)
  }

  /** A result row carries the test output of some candidate whose output is complete. */
  predicate FromCompleteCandidate(r: ResultRow, cands: seq<Candidate>)
  {
    exists j :: 0 <= j < |cands| && Complete(cands[j].out) && FromCandidate(r, cands[j])
  }

  /** The flag agrees with the corrected p-value, and the provenance columns are the call's. */
  predicate Annotated(r: ResultRow, attribute: string, a: AttrValue, b: AttrValue)
  {
    r.significance == (r.pCorrected < 0.05) && r.attribute == attribute && r.a == a && r.b == b
  }

  predicate SortedByPCorrected(t: seq<ResultRow>)
  {
    forall i, j :: 0 <= i < j < |t| ==> t[i].pCorrected <= t[j].pCorrected
  }

  /** What `sort_values("p-corrected")` promises: a reordering, non-decreasing in p-corrected, no tie order. */
  ghost predicate IsSortedPermutation(t: seq<ResultRow>, of: seq<ResultRow>)
  {
    multiset(t) == multiset(of) && SortedByPCorrected(t)
  }

  /** A row no larger than the head of a sorted table can go in front of it. */
  lemma PrependSorted(y: ResultRow, s: seq<ResultRow>)
    requires SortedByPCorrected(s) && (s == [] || y.pCorrected <= s[0].pCorrected)
    ensures SortedByPCorrected([y] + s)
  {
  }

  function InsertByPCorrected(x: ResultRow, s: seq<ResultRow>): (r: seq<ResultRow>)
    requires SortedByPCorrected(s)
    ensures SortedByPCorrected(r)
    ensures multiset(r) == multiset(s) + multiset{x}
    ensures |r| > 0 && (r[0] == x || (s != [] && r[0] == s[0]))
  {
    if s == [] then [x]
    else if x.pCorrected <= s[0].pCorrected then
      PrependSorted(x, s);
      [x] + s
    else
      var rest := InsertByPCorrected(x, s[1..]);
      assert s == [s[0]] + s[1..];
      PrependSorted(s[0], rest);
      [s[0]] + rest
  }

  /** `sort_values("p-corrected")`: a permutation of the table, non-decreasing in p-corrected. */
  function SortByPCorrected(t: seq<ResultRow>): (r: seq<ResultRow>)
    ensures IsSortedPermutation(r, t)
  {
    if t == [] then []
    else
      assert t == t[..|t| - 1] + [t[|t| - 1]];
      InsertByPCorrected(t[|t| - 1], SortByPCorrected(t[..|t| - 1]))
  }

  /** No two rows share an index label. */
  predicate DistinctNames(t: seq<ResultRow>)
  {
    forall i, j :: 0 <= i < j < |t| ==> t[i].metabolite != t[j].metabolite
  }

  /** In a table with distinct index labels no row occurs twice. */
  lemma {:induction false} DistinctNamesCountOnce(t: seq<ResultRow>, x: ResultRow)
    requires DistinctNames(t)
    ensures multiset(t)[x] <= 1
  {
    if t != [] {
      var n := |t| - 1;
      assert t == t[..n] + [t[n]];
      DistinctNamesCountOnce(t[..n], x);
      if t[n] == x {
        assert x !in t[..n];
      }
    }
  }

  /** Two distinct positions holding the same row make it occur twice. */
  lemma TwoPositionsCountTwice(t: seq<ResultRow>, i: int, j: int)
    requires 0 <= i < j < |t| && t[i] == t[j]
    ensures multiset(t)[t[i]] >= 2
  {
    assert t == t[..i] + [t[i]] + t[i + 1..j] + [t[j]] + t[j + 1..];
  }

  /** In a table with distinct index labels a label determines its row. */
  lemma SameNameSameRow(t: seq<ResultRow>, x: ResultRow, y: ResultRow)
    requires DistinctNames(t) && x in t && y in t && x.metabolite == y.metabolite
    ensures x == y
  {
  }

  /** Reordering keeps index labels distinct. */
  lemma PermutationKeepsDistinctNames(t: seq<ResultRow>, of: seq<ResultRow>)
    requires multiset(t) == multiset(of) && DistinctNames(of)
    ensures DistinctNames(t)
  {
    forall i, j | 0 <= i < j < |t|
      ensures t[i].metabolite != t[j].metabolite
    {
      if t[i].metabolite == t[j].metabolite {
        assert t[i] in multiset(of) && t[j] in multiset(of);
        SameNameSameRow(of, t[i], t[j]);
        TwoPositionsCountTwice(t, i, j);
        DistinctNamesCountOnce(of, t[i]);
      }
    }
  }

  /** Every row of the returned table is a complete candidate's test output, flagged and labelled with the call's provenance. */
  lemma ResultRowsFromCandidates(t: seq<ResultRow>, cands: seq<Candidate>, attribute: string, a: AttrValue, b: AttrValue,
                                 pCorrection: string, correct: Corrector)
    requires LengthPreserving(correct, pCorrection)
    requires multiset(t) == multiset(Table(cands, attribute, a, b, pCorrection, correct))
    ensures |t| == |Where(CompleteMask(cands))|
    ensures forall i :: 0 <= i < |t| ==> Annotated(t[i], attribute, a, b)
    ensures forall i :: 0 <= i < |t| ==> FromCompleteCandidate(t[i], cands)
  {
    var tab := Table(cands, attribute, a, b, pCorrection, correct);
    TableRows(cands, attribute, a, b, pCorrection, correct);
    var ix := Where(CompleteMask(cands));
    assert |t| == |multiset(t)| == |multiset(tab)| == |tab|;
    forall i | 0 <= i < |t|
      ensures Annotated(t[i], attribute, a, b)
      ensures FromCompleteCandidate(t[i], cands)
    {
      assert t[i] in multiset(tab);
      var k :| 0 <= k < |tab| && tab[k] == t[i];
      assert FromCandidate(t[i], cands[ix[k]]);
    }
  }

  /** Every candidate whose test output is complete contributes a row to the returned table. */
  lemma CompleteCandidatesKept(t: seq<ResultRow>, cands: seq<Candidate>, attribute: string, a: AttrValue, b: AttrValue,
                               pCorrection: string, correct: Corrector)
    requires LengthPreserving(correct, pCorrection)
    requires multiset(t) == multiset(Table(cands, attribute, a, b, pCorrection, correct))
    ensures forall j :: 0 <= j < |cands| && Complete(cands[j].out) ==> Represented(t, cands[j])
  {
    var tab := Table(cands, attribute, a, b, pCorrection, correct);
    TableRows(cands, attribute, a, b, pCorrection, correct);
    CorrectionInput(cands);
    var ix := Where(CompleteMask(cands));
    forall j | 0 <= j < |cands| && Complete(cands[j].out)
      ensures Represented(t, cands[j])
    {
      var k :| 0 <= k < |ix| && ix[k] == j;
      assert tab[k] in multiset(t);
      var i :| 0 <= i < |t| && t[i] == tab[k];
      assert FromCandidate(t[i], cands[j]);
    }
  }

  /**
   * With distinct feature names the returned table has distinct index labels,
   * and a feature is present exactly when its test output is complete.
   */
  lemma ResultNamesExact(t: seq<ResultRow>, cands: seq<Candidate>, attribute: string, a: AttrValue, b: AttrValue,
                         pCorrection: string, correct: Corrector)
    requires LengthPreserving(correct, pCorrection)
    requires multiset(t) == multiset(Table(cands, attribute, a, b, pCorrection, correct))
    requires CandidateNamesDistinct(cands)
    ensures DistinctNames(t)
    ensures forall j :: 0 <= j < |cands| ==>
      (Complete(cands[j].out) <==> exists i :: 0 <= i < |t| && t[i].metabolite == cands[j].metabolite)
  {
    var tab := Table(cands, attribute, a, b, pCorrection, correct);
    TableRows(cands, attribute, a, b, pCorrection, correct);
    CorrectionInput(cands);
    var ix := Where(CompleteMask(cands));
    forall k, l | 0 <= k < l < |tab|
      ensures tab[k].metabolite != tab[l].metabolite
    {
      assert ix[k] < ix[l];
    }
    PermutationKeepsDistinctNames(t, tab);
    ResultRowsFromCandidates(t, cands, attribute, a, b, pCorrection, correct);
    CompleteCandidatesKept(t, cands, attribute, a, b, pCorrection, correct);
    forall j | 0 <= j < |cands|
      ensures Complete(cands[j].out) <==> exists i :: 0 <= i < |t| && t[i].metabolite == cands[j].metabolite
    {
      if exists i :: 0 <= i < |t| && t[i].metabolite == cands[j].metabolite {
        var i :| 0 <= i < |t| && t[i].metabolite == cands[j].metabolite;
        var j' :| 0 <= j' < |cands| && Complete(cands[j'].out) && FromCandidate(t[i], cands[j']);
        assert j == j';
      }
      if Complete(cands[j].out) {
        assert Represented(t, cands[j]);
      }
    }
  }

  /**
   * What the returned table promises about the candidate rows (one per
   * feature column), whatever order its ties take: sorted by p-corrected; one
   * row per candidate whose test output is complete, carrying that output,
   * the flag `p-corrected < 0.05` and the call's provenance; every such
   * candidate present; distinct index labels; and a feature present exactly
   * when its test output is complete.
   */
  ghost predicate ReturnedTableFacts(t: seq<ResultRow>, cands: seq<Candidate>, attribute: string,
                                     a: AttrValue, b: AttrValue)
  {
    && SortedByPCorrected(t)
    && |t| == |Where(CompleteMask(cands))|
    && (forall i :: 0 <= i < |t| ==> Annotated(t[i], attribute, a, b))
    && (forall i :: 0 <= i < |t| ==> FromCompleteCandidate(t[i], cands))
    && (forall j :: 0 <= j < |cands| && Complete(cands[j].out) ==> Represented(t, cands[j]))
    && DistinctNames(t)
    && (forall j :: 0 <= j < |cands| ==>
          (Complete(cands[j].out) <==> exists i :: 0 <= i < |t| && t[i].metabolite == cands[j].metabolite))
  }

  /** A sorted permutation of the pipeline's table keeps all the promises of `ReturnedTableFacts`. */
  lemma ReturnedTable(t: seq<ResultRow>, cands: seq<Candidate>, attribute: string, a: AttrValue, b: AttrValue,
                      pCorrection: string, correct: Corrector)
    requires LengthPreserving(correct, pCorrection)
    requires IsSortedPermutation(t, Table(cands, attribute, a, b, pCorrection, correct))
    requires CandidateNamesDistinct(cands)
    ensures ReturnedTableFacts(t, cands, attribute, a, b)
  {
    ResultNamesExact(t, cands, attribute, a, b, pCorrection, correct);
    ResultRowsFromCandidates(t, cands, attribute, a, b, pCorrection, correct);
    CompleteCandidatesKept(t, cands, attribute, a, b, pCorrection, correct);
  }

  /** Distinct feature names give distinct candidate names. */
  lemma RunTestsNames(data: seq<Feature>, attr: seq<AttrValue>, a: AttrValue, b: AttrValue, alt: Alternative, test: StatTest)
    requires Aligned(data, attr)
    ensures var cands := RunTests(data, attr, a, b, alt, test);
      && |cands| == |data|
      && (forall j :: 0 <= j < |data| ==> cands[j].metabolite == data[j].name)
      && (DistinctFeatures(data) ==> CandidateNamesDistinct(cands))
  {
  }

  /** Some row of the table carries this candidate's test output. */
  predicate Represented(t: seq<ResultRow>, c: Candidate)
  {
    exists i :: 0 <= i < |t| && FromCandidate(t[i], c)
  }

  predicate CandidateNamesDistinct(cands: seq<Candidate>)
  {
    forall j, k :: 0 <= j < k < |cands| ==> cands[j].metabolite != cands[k].metabolite
  }

  /** `df.loc[metabolite, "p-corrected"]`: the corrected p-value on the row indexed by `metabolite`. */
  function PCorrectedOf(t: seq<ResultRow>, metabolite: string): (p: real)
    requires DistinctNames(t)
    requires exists i :: 0 <= i < |t| && t[i].metabolite == metabolite
    ensures forall i :: 0 <= i < |t| && t[i].metabolite == metabolite ==> p == t[i].pCorrected
  {
    if t[0].metabolite == metabolite then t[0].pCorrected
    else PCorrectedOf(t[1..], metabolite)
  }
}
