# FBMN-STATS result-table pipeline, in Dafny

This project models the core of the FBMN-STATS web application's two
non-parametric test pages. Each page builds a per-feature result table from a
metabolomics feature table (samples × features, intensities possibly missing)
and a metadata table (samples × attributes). The user picks one metadata
attribute and two of its labels. For every feature column the pipeline does
the following:

- It selects the two groups of intensities, on the rows whose attribute equals
  each label, in row order.
- It runs the statistics library's test on them: the Wilcoxon signed-rank test
  for paired samples, or the exact Mann-Whitney U test for independent groups.
- It drops the features whose test output has a missing value.
- It corrects the surviving p-values in one call over the whole vector.
- It adds the flag `p-corrected < 0.05` and the provenance columns
  (attribute, A, B).
- It sorts the table by corrected p-value.

The paired variant first refuses groups of unequal size ("Unequal Sample
Sizes"). A box plot per feature is annotated with `ns`, `*`, `**` or `***`
according to the feature's corrected p-value.

Modules:

- `Wrappers`: Option and Result.
- `Frames`: the input tables, and row selection by a boolean mask. This is
  pandas' `series[series2 == label]` and the row filter behind `dropna`.
- `ResultTable`: the steps both pipelines share, as specification functions
  (`RunTests`, `DropNA`, `Annotate`, `Table`, `SortByPCorrected`), and the
  lemmas about the table they produce.
- `Significance`: the p-value → symbol cascade.
- `Wilcoxon`, `Mwu`: one module per source file. Each holds the table builder,
  as a method with a loop over the feature columns, and the box-plot symbol
  lookup.

The statistics library's calls (`pg.wilcoxon`, `pg.mwu(..., method="exact")`,
`pg.multicomp`) are code the model cannot see. They are passed to the table
builders as function-valued parameters.

- A test returns its one-row frame: the statistic, the alternative, the
  p-value, RBC and CLES. Each numeric column is `Option<real>`, with `None`
  standing for NaN.
- The only thing assumed of the correction is that it returns one value per
  input p-value (`LengthPreserving`).

The data and metadata tables are explicit parameters. In the application they
come from the session state.

P-values are `real`: they are only compared with thresholds and passed through,
never computed on here.

A few behaviours of the code are easy to mistake:

- The code does not reject equal or absent target labels. Such labels give
  equal or empty groups, and the run proceeds. The exception is the paired
  variant's size check: it rejects one absent label next to a present one,
  because the groups then have 0 rows against some rows.
- The sort is pandas' default `sort_values`, which is not stable. So the
  builders promise a permutation that is non-decreasing in `p-corrected`, and
  no order among ties.
- Rows are dropped only for missing values in the test output, before
  correction. Nothing is dropped for a missing corrected value.
- The equal-size check of the paired variant runs inside the column loop. It
  therefore fires on the first column, before any test runs. Group sizes
  depend only on the attribute column (`Frames.GroupSize`), so that one check
  decides the whole run.

## Model

| member | source | states |
|---|---|---|
| `Frames.Where` | FBMN-STATS-WebApp/src/wilcoxon.py:13-14 | the positions a boolean mask selects are ascending, each is a true position, and every true position is among them |
| `Frames.Masked` | FBMN-STATS-WebApp/src/wilcoxon.py:13-14 | boolean selection keeps as many elements as the mask has true entries, whatever the selected sequence holds |
| `Frames.MaskedInOrder` | FBMN-STATS-WebApp/src/wilcoxon.py:13-14 | the k-th selected element is the element at the k-th true position of the mask |
| `Frames.SelectGroup` | FBMN-STATS-WebApp/src/wilcoxon.py:13-16 | a group's size is the number of rows carrying the label; it is the same for every feature column, so the paired size check gives the same answer on every column |
| `Frames.SelectGroupRows` | FBMN-STATS-WebApp/src/wilcoxon.py:13-14 | group1 (group2) is exactly the column's values on the rows whose attribute equals `target_groups[0]` (`[1]`), in row order; a missing attribute value matches no label; the same selection is made at FBMN-STATS-WebApp/src/mwu.py:13-14 |
| `ResultTable.DropNA` | FBMN-STATS-WebApp/src/wilcoxon.py:23 | `dropna` keeps one row per candidate whose test output has no missing value |
| `ResultTable.DropNAInOrder` | FBMN-STATS-WebApp/src/wilcoxon.py:22-23 | the k-th surviving row is the k-th candidate with a complete test output, in column order; every complete candidate survives and no incomplete one does |
| `ResultTable.CorrectionInput` | FBMN-STATS-WebApp/src/wilcoxon.py:22-25 | the vector handed to the correction is the raw p-values of all complete candidates and only those, in column order (the same call is FBMN-STATS-WebApp/src/mwu.py:22) |
| `ResultTable.TableRows` | FBMN-STATS-WebApp/src/wilcoxon.py:25-30 | the correction's k-th output is the k-th row's `p-corrected`, next to the k-th raw p-value; each row is read from a distinct complete candidate, with `significance == (p-corrected < 0.05)` and attribute, A and B unchanged (the same steps are FBMN-STATS-WebApp/src/mwu.py:22-27) |
| `ResultTable.SortByPCorrected` | FBMN-STATS-WebApp/src/wilcoxon.py:32 | sorting yields a permutation of the table that is non-decreasing in `p-corrected` |
| `ResultTable.PermutationKeepsDistinctNames` | FBMN-STATS-WebApp/src/wilcoxon.py:32 | reordering a table whose index labels are distinct keeps them distinct |
| `ResultTable.ResultRowsFromCandidates` | FBMN-STATS-WebApp/src/wilcoxon.py:18-30 | in any reordering of the table, every row is the test output of some feature column whose output was complete, flagged and labelled with the call's provenance, and there are as many rows as complete outputs |
| `ResultTable.CompleteCandidatesKept` | FBMN-STATS-WebApp/src/wilcoxon.py:17-23 | every feature column whose test output is complete contributes a row |
| `ResultTable.ResultNamesExact` | FBMN-STATS-WebApp/src/wilcoxon.py:18-23 | with distinct feature names, the table's index is distinct and a feature is present exactly when its test output has no missing value |
| `ResultTable.ReturnedTable` | FBMN-STATS-WebApp/src/wilcoxon.py:17-32 | for candidates with distinct names, any sorted permutation of the pipeline's table is sorted by `p-corrected`, has one row per complete test output, flags and labels every row, traces each row to a complete candidate, represents every complete candidate, and has a distinct index in which a feature is present exactly when its test output is complete |
| `ResultTable.RunTestsNames` | FBMN-STATS-WebApp/src/wilcoxon.py:12-20 | there is one candidate per feature column, named after it, so distinct feature names give distinct candidate names |
| `ResultTable.PCorrectedOf` | FBMN-STATS-WebApp/src/wilcoxon.py:113 | `.loc[metabolite, "p-corrected"]` on a table with a distinct index is the corrected p-value of the row labelled `metabolite` |
| `Significance.Symbol` | FBMN-STATS-WebApp/src/wilcoxon.py:113-121 | `ns` iff p ≥ 0.05, `*` iff 0.01 ≤ p < 0.05, `**` iff 0.001 ≤ p < 0.01, `***` iff p < 0.001 |
| `Significance.SymbolMonotone` | FBMN-STATS-WebApp/src/wilcoxon.py:113-121 | a smaller p-value never shows fewer stars |
| `Significance.SymbolExhaustive` | FBMN-STATS-WebApp/src/mwu.py:109-117 | every p-value gets one of the four symbols, and it shows stars exactly when p < 0.05 |
| `Wilcoxon.GenWilcoxonData` | FBMN-STATS-WebApp/src/wilcoxon.py:9-32 | fails with "Unequal Sample Sizes", and returns no table, exactly when the two labels mark different numbers of rows; otherwise it returns a permutation of the annotated table of complete test outputs, sorted by `p-corrected` (`ReturnedTableFacts`): every row is flagged `p-corrected < 0.05` and labelled with the attribute and both targets; each row comes from a feature column whose output was complete; every such column is present; the index is distinct, and a feature is present exactly when its test output is complete |
| `Wilcoxon.BoxplotSymbol` | FBMN-STATS-WebApp/src/wilcoxon.py:113-121 | the box-plot symbol of a feature is the cascade applied to that feature's `p-corrected`; it is `ns` exactly when `p-corrected` ≥ 0.05 |
| `Mwu.GenMwuData` | FBMN-STATS-WebApp/src/mwu.py:9-29 | has no size check and always returns a table, whether or not the groups have equal sizes; that table is a permutation of the annotated table of complete test outputs, sorted by `p-corrected`, with each row's flag and provenance; each row comes from a complete column and every complete column is present; the index is distinct, and presence is exactly completeness |
| `Mwu.BoxplotSymbol` | FBMN-STATS-WebApp/src/mwu.py:109-117 | the box-plot symbol of a feature is the cascade applied to that feature's `p-corrected`; it is `ns` exactly when `p-corrected` ≥ 0.05 |

## Left out

- The statistics themselves: the signed-rank and Mann-Whitney U tests and the correction procedures (Bonferroni, FDR, …) belong to the pingouin library, which is not part of this model. They are parameters, and only the correction's length is assumed.
- An unknown correction method: pingouin raises on it. The page only offers the methods of its correction map, so this is not modelled.
- Plotting: `get_wilcoxon_plot`, `get_mwu_plot`, and the figure, line and annotation placement in the box-plot functions. These are plotly output over floating point (`np.log`, `max(...) * 1.2`, the y margins).
- Streamlit plumbing: `st.cache_data` / `st.cache_resource` memoisation, and reads of `st.session_state`. The tables and the chosen attribute, labels, alternative and correction method are explicit parameters.
- `pd.concat` column alignment: the feature and metadata tables are taken as row-aligned (`Frames.Aligned`), and a metadata column named like a feature is not modelled.
- The empty feature table, on which `pd.concat([])` raises: the builders require at least one feature column.
- The page files `pages/10_Mann-Whitney_U_Test.py` and `pages/11_Wilcoxon_Signed-Rank_Test.py` are widget wiring. Only their guarantee that exactly two labels are selected (line 37 of each) is kept, as the requirement `|targetGroups| == 2`.
- `Wilcoxon.BoxplotSymbol` and `Mwu.BoxplotSymbol` require the table's index to be distinct. On a duplicated label, `.loc` yields a series, and the comparison with 0.05 raises; that error path is not modelled.
- `Wilcoxon.GenWilcoxonData` and `Mwu.GenMwuData` require distinct feature names. With a duplicated name, `df[col]` at FBMN-STATS-WebApp/src/wilcoxon.py:13-14 and FBMN-STATS-WebApp/src/mwu.py:13-14 yields a two-column frame rather than one column, so the library test receives a frame. That path is not modelled.
- The library calls are assumed to return rather than raise (`StatTest` and `Corrector` are total). For example, the Mann-Whitney U test rejects a group that is empty once NaNs are dropped; in the application that aborts the whole run rather than dropping one row. That abort is not modelled.
