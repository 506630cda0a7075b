# hmmscan hit aggregation, modelled in Dafny

A model of `scripts/parse_hmmscan_agg.py`. The script reads the hits of a profile search (hmmscan) against a set of genomes and keeps one best hit per (genome, query). It adds the alignment coverage of the profile and drops hits that fail the i-evalue and coverage thresholds. It then drops hits at or below the per-gene score cutoff. The remaining hits are counted into a genome-by-gene matrix over the marker-gene profile. Finally it merges the split marker genes (UbiT/UbiT2, MqnM/MqnM2, UbiX/UbiX2, RquA/RquA2 and the two cyanobacterial UbiFHILM forms) into canonical columns. An optional step joins the matrix with a taxonomy table, on genome ids taken from its RefSeq/GenBank FTP paths.

Every stage is a pure function or method over immutable values:

| module | file | stage |
|---|---|---|
| `Wrappers` | wrappers.dfy | `Option` and `Result`, the latter used for pandas' `KeyError` |
| `Seqs` | seqs.dfy | order-preserving `Filter` and the subsequence relation, the shape of every boolean-mask selection |
| `Tables` | tables.dfy | hit rows (`Hit`, `Scored`), `KeyError`, the count matrix `CountTable` |
| `Selection` | selection.dfy | `best_hit` |
| `Filters` | filters.dfy | `coverage`, `filter_ieval_cov`, `apply_cutga`, `filt_on_genes` |
| `Matrix` | matrix.dfy | `get_results` (pivot, reindex, outer merge) and `merge_col` |
| `Taxonomy` | taxonomy.dfy | `extract_id`, `get_filenames`, `add_taxonomy` |
| `Pipeline` | pipeline.dfy | the main sequence from the hit table to the merged matrix |

Modelling choices:
- A hit row carries its pandas index label `id`. The reader gives the labels 0, 1, 2, ... in row order, so `best_hit`'s `sort_index()` puts rows back in input order. `IdsIncreasing` states this assumption.
- The matrix is a map from genome to a map from gene column to count, with the column order kept as a sequence.
- The marker-gene lists (`quinones`, `quinones_full_profile`) and the cutoff dictionary are parameters. They come from modules that are not part of this model.
- The cutoff dictionary is the sequence of its items in iteration order. `DistinctKeys` states that a dictionary holds no key twice.
- A missing column is a `Failure(KeyError(column))` instead of an exception.
- The genome list of `get_results` is a parameter. The script lists a directory to get it.

Behaviour of the script that is easy to misread:
- `apply_cutga` drops rows whose score is at most the cutoff (`<=`): a score equal to the cutoff is dropped too.
- `apply_cutga` drops rows by index label (`drop(... .index)`), not by position.
- `extract_id` runs a regex search in which `.` does not match a line break.
- `merge_col` overwrites UbiFHILM with the sum of its two cyanobacterial forms; it does not add to the old value.
- A missing merge column is an error result, not a precondition.
- `merge_col` selects "genome" and then the quinone list, so a quinone named "genome" selects the key column a second time; pandas raises no error for it.

## Model

| member | source | states |
|---|---|---|
| Selection.GroupIdxMin | scripts/parse_hmmscan_agg.py:25-26 | every (genome, query) pair present gets a position; that position holds a row of the pair with the pair's smallest i-evalue, and every earlier row of the pair is strictly worse (ties go to the first occurrence) |
| Selection.KeepPicked | scripts/parse_hmmscan_agg.py:28 | taking the rows at the picked positions and restoring index order gives exactly the group-best rows in input order |
| Selection.BestHit | scripts/parse_hmmscan_agg.py:24-29 | the index-of-minimum algorithm computes exactly the reference selection: the rows at group-best positions, in input order (its properties are the `Selected` lemmas) |
| Selection.SelectedMembers | scripts/parse_hmmscan_agg.py:24-29 | a row is selected iff it sits at a group-best position |
| Selection.SelectedSubseq | scripts/parse_hmmscan_agg.py:28 | the selection keeps the input order (subsequence of the input) |
| Selection.SelectedIncreasing | scripts/parse_hmmscan_agg.py:28 | index labels stay strictly increasing after selection |
| Selection.BestAmongExists | scripts/parse_hmmscan_agg.py:25 | every group met in a prefix has a first minimal row in that prefix |
| Selection.GroupBestUnique | scripts/parse_hmmscan_agg.py:25 | a group has at most one best position |
| Selection.SelectedCoversGroups | scripts/parse_hmmscan_agg.py:25-28 | every (genome, query) pair present in the input keeps a row |
| Selection.SelectedOnePerGroup | scripts/parse_hmmscan_agg.py:25-28 | no (genome, query) pair keeps two rows |
| Selection.SelectedExactlyBest | scripts/parse_hmmscan_agg.py:24-29 | with distinct labels, input row i is kept iff it is its group's best |
| Filters.Coverage | scripts/parse_hmmscan_agg.py:32-38 | same length and order, every hit unchanged, and coverage * tlen = hmm_to - hmm_from + 1 for every row |
| Filters.CoverageInUnitInterval | scripts/parse_hmmscan_agg.py:36 | an alignment within the profile (1 <= from <= to <= tlen) has coverage in (0, 1] |
| Filters.CoverageExample | scripts/parse_hmmscan_agg.py:36 | positions 1..100 of a 200-long profile give coverage 0.5 |
| Filters.CoverageKeepsLabels | scripts/parse_hmmscan_agg.py:37 | strictly increasing labels are unique after the coverage column is added |
| Filters.FilterIevalCov | scripts/parse_hmmscan_agg.py:41-45 | order-preserving subsequence; a row is kept iff i-evalue <= threshold and coverage >= threshold, with every copy of it |
| Filters.ThresholdTightening | scripts/parse_hmmscan_agg.py:41-45 | tighter thresholds keep the rows the looser ones keep that pass the tighter test, as a subsequence |
| Filters.CutoffMap | scripts/parse_hmmscan_agg.py:49 | the dictionary's keys are the items' keys and, with distinct keys, each key maps to its item's value |
| Filters.DropMatching | scripts/parse_hmmscan_agg.py:50-53 | one dictionary entry: an order-preserving subsequence in which no row of that target scores <= its cutoff; with unique labels every other row stays |
| Filters.ApplyCutga | scripts/parse_hmmscan_agg.py:48-54 | every surviving row was an input row and is not rejected by any cutoff |
| Filters.RejectedLabelsStep | scripts/parse_hmmscan_agg.py:49-53 | the labels one more entry rejects are its matches plus what the remaining entries reject among the rows it leaves |
| Filters.ApplyCutgaByLabels | scripts/parse_hmmscan_agg.py:48-54 | the loop of drops equals one filter: keep rows whose label is not the label of any rejected row |
| Filters.CutoffsRemoveExactly | scripts/parse_hmmscan_agg.py:48-54 | with unique labels, exactly the rows whose target has a cutoff and whose score is <= it are removed, in order; rows of targets without a cutoff stay |
| Filters.CutoffOrderIrrelevant | scripts/parse_hmmscan_agg.py:49 | two iteration orders of the same dictionary give the same result |
| Filters.CutoffIdempotent | scripts/parse_hmmscan_agg.py:48-54 | applying the cutoffs twice equals applying them once |
| Filters.CutoffExample | scripts/parse_hmmscan_agg.py:50-53 | with GeneA: 50, GeneA rows scoring 40 or 50 go, one scoring 60 stays, GeneB rows stay |
| Filters.FiltOnGenes | scripts/parse_hmmscan_agg.py:57-58 | order-preserving subsequence; a row is kept iff its target is in the marker-gene list, with every copy of it |
| Matrix.CountPositive | scripts/parse_hmmscan_agg.py:73-75 | a (genome, target) count is positive iff some row has that genome and target |
| Matrix.CountOfFilter | scripts/parse_hmmscan_agg.py:69 | a filter that keeps every row of a (genome, target) pair leaves that pair's count unchanged |
| Matrix.CountOfSnoc | scripts/parse_hmmscan_agg.py:73-75 | one more row adds one to its own (genome, target) count and nothing to the others |
| Matrix.PivotStep | scripts/parse_hmmscan_agg.py:73-75 | counting one more row into the pivot of a prefix gives the pivot of the longer prefix |
| Matrix.PivotOfPivots | scripts/parse_hmmscan_agg.py:73-75 | counting the rows one by one from an empty table gives their pivot |
| Matrix.Pivot | scripts/parse_hmmscan_agg.py:73-76 | the pivot has a row for exactly the genomes present and a cell for exactly the targets with hits, holding their number |
| Matrix.Reindex | scripts/parse_hmmscan_agg.py:78-80 | the pivot's genomes keep their rows; each row has exactly the profile columns, with the pivot's count where it had one and 0 elsewhere |
| Matrix.OuterMerge | scripts/parse_hmmscan_agg.py:79-80 | a row for exactly the listed genomes and the pivot's genomes; pivot rows are kept, a listed genome the pivot lacks gets 0 in every profile column and no other column |
| Matrix.GetResults | scripts/parse_hmmscan_agg.py:67-81 | the count columns are the full profile in order; every row has every column; rows are exactly the listed genomes plus the genomes with a profile hit; each cell is the number of rows with that genome and target |
| Matrix.AbsentGenomeIsZero | scripts/parse_hmmscan_agg.py:79-80 | in the matrix `get_results` returns, a genome without any marker-gene hit has a row of zeros |
| Matrix.AddColumns | scripts/parse_hmmscan_agg.py:126 | one assignment succeeds iff both read columns exist (else KeyError on a missing one); it sets dest to left + right in every row and leaves every other cell unchanged |
| Matrix.Project | scripts/parse_hmmscan_agg.py:131-133 | selection of columns succeeds iff each is the key column "genome" or exists (else KeyError on a missing count column); it keeps exactly the selected count columns, in that order, and their cells |
| Matrix.FirstMissing | scripts/parse_hmmscan_agg.py:133 | the first requested column that is missing |
| Matrix.RunAssignments | scripts/parse_hmmscan_agg.py:126-130 | statements in sequence keep the matrix rectangular and its rows, and add the written columns |
| Matrix.AssignedUnwritten | scripts/parse_hmmscan_agg.py:126-130 | a column no statement writes keeps its value |
| Matrix.AssignedFrame | scripts/parse_hmmscan_agg.py:126-130 | a column the statements neither read nor write does not affect the others |
| Matrix.RunAssignmentsOutcome | scripts/parse_hmmscan_agg.py:126-130 | statements that never read an earlier write succeed iff every column read exists; a KeyError names a read column the table lacks |
| Matrix.ReadsBeforeWritesTail | scripts/parse_hmmscan_agg.py:126-130 | the statements after the first read nothing the first wrote |
| Matrix.RunAssignmentsFirst | scripts/parse_hmmscan_agg.py:126-130 | a successful run is its first statement, which succeeds and adds its column, followed by the rest |
| Matrix.AddColumnsLookup | scripts/parse_hmmscan_agg.py:126 | one statement makes the written column the sum of the read ones and leaves every other column unchanged |
| Matrix.RunAssignmentsCell | scripts/parse_hmmscan_agg.py:126-130 | a successful run agrees cell by cell with the values computed from the row before it |
| Matrix.MergeSplitColumns | scripts/parse_hmmscan_agg.py:126-130 | a successful run of the five statements keeps the rows and rectangularity and adds exactly the columns UbiT, MqnM, UbiX, RquA and UbiFHILM to the old ones |
| Matrix.MergeAssignmentsShape | scripts/parse_hmmscan_agg.py:126-130 | the five statements never read a column an earlier one wrote and read only the ten source columns |
| Matrix.MergeAssignmentsDests | scripts/parse_hmmscan_agg.py:126-130 | the five statements write exactly UbiT, MqnM, UbiX, RquA and UbiFHILM |
| Matrix.MergeAssignmentsReads | scripts/parse_hmmscan_agg.py:126-130 | all five statements' reads exist iff the ten source columns exist |
| Matrix.MergeAssignmentsClosedForm | scripts/parse_hmmscan_agg.py:126-130 | the five statements give UbiT = UbiT + UbiT2 (likewise MqnM, UbiX, RquA), UbiFHILM = UbiFHILM_Cyano + FMO_Cyano, and every other column unchanged |
| Matrix.MergeSplitColumnsOutcome | scripts/parse_hmmscan_agg.py:126-130 | the assignments succeed iff the ten source columns exist; a KeyError names a missing source column |
| Matrix.MergeSplitColumnsGenes | scripts/parse_hmmscan_agg.py:126-130 | after the assignments the columns are the old ones plus UbiFHILM |
| Matrix.MergeSplitColumnsCells | scripts/parse_hmmscan_agg.py:126-130 | after the assignments every cell holds its merged value |
| Matrix.MergeSplitColumnsCell | scripts/parse_hmmscan_agg.py:126-130 | one cell after the assignments holds its merged value |
| Matrix.ProjectMerged | scripts/parse_hmmscan_agg.py:131-133 | after the assignments, selecting the quinones succeeds iff each exists before them, is UbiFHILM or is "genome"; kept cells hold their merged values |
| Matrix.MergeCol | scripts/parse_hmmscan_agg.py:117-133 | succeeds iff the ten source columns exist and every requested column exists, is UbiFHILM or is the key column "genome"; a KeyError names a missing source or requested column; on success the count columns are exactly the requested ones other than "genome", rows are unchanged, and each cell is the merged value |
| Taxonomy.LineEnd | scripts/parse_hmmscan_agg.py:89 | the end of a line: the next line break or the end of the text, with no line break before it |
| Taxonomy.LineEndWithin | scripts/parse_hmmscan_agg.py:89 | positions on one line share its end |
| Taxonomy.LineEndPast | scripts/parse_hmmscan_agg.py:89 | a line runs past every position up to which no line break occurs |
| Taxonomy.LastMarker | scripts/parse_hmmscan_agg.py:89 | the last "/GC?_" position in a range, or none in that range |
| Taxonomy.PicksLaterLine | scripts/parse_hmmscan_agg.py:89 | a search finding no marker before a line start picks what the search from that line picks |
| Taxonomy.PicksLastOfLine | scripts/parse_hmmscan_agg.py:89 | when the line at the search start has a marker, its last marker and the rest of that line are what the pattern picks |
| Taxonomy.ExtractFrom | scripts/parse_hmmscan_agg.py:89 | the search from a line start matches iff a "/GC?_" marker follows; the id is the rest of the line after the last marker of the first line that has one |
| Taxonomy.ExtractId | scripts/parse_hmmscan_agg.py:84-89 | an id exists iff the path has a "/" followed by "GC", one non-newline character and "_"; it is the suffix after the greedy match's last such "/" on the first matching line |
| Taxonomy.ExtractIdShape | scripts/parse_hmmscan_agg.py:89 | an extracted id starts with "GC", one character and "_", and has no line break |
| Taxonomy.PickedShape | scripts/parse_hmmscan_agg.py:89 | the text after a picked marker starts with "GC", one character and "_", and has no line break |
| Taxonomy.ExtractIdSingleLine | scripts/parse_hmmscan_agg.py:89 | on a one-line path the id is everything after the last marker "/" |
| Taxonomy.ExtractIdExample | scripts/parse_hmmscan_agg.py:89 | a directory "GCF/" is not an id: "a/GCF/GCA_1" gives "GCA_1", "a/GCF/" gives none |
| Taxonomy.ExtractCell | scripts/parse_hmmscan_agg.py:89 | a missing cell yields no id; a present cell yields one iff it has a "/GC?_" marker |
| Taxonomy.GenomeOf | scripts/parse_hmmscan_agg.py:98-99 | a row has no genome id iff neither FTP path yields one; the id comes from one of the two paths, and from RefSeq whenever RefSeq yields one |
| Taxonomy.GetFilenames | scripts/parse_hmmscan_agg.py:92-102 | with both FTP columns, each row's genome is the RefSeq id, else the GenBank id, the other cells unchanged; with either column missing, the table is returned unchanged |
| Taxonomy.JoinRows | scripts/parse_hmmscan_agg.py:112 | a joined row exists exactly for each taxonomy row whose genome is a matrix genome, paired with that genome's counts |
| Taxonomy.JoinRowsCopies | scripts/parse_hmmscan_agg.py:112 | the join keeps multiplicity: each taxonomy row whose genome is a matrix genome gives one joined row per copy, any other row gives none |
| Taxonomy.JoinRowsCopy | scripts/parse_hmmscan_agg.py:112 | the number of joined rows carrying one given taxonomy row is its number of copies if its genome is a matrix genome, else 0 |
| Taxonomy.AddTaxonomy | scripts/parse_hmmscan_agg.py:105-114 | KeyError "genome" iff the taxonomy table has neither both FTP columns nor a genome column; otherwise the inner join on genome of the matrix and the named taxonomy rows, one joined row per copy of each matching taxonomy row |
| Pipeline.IdsUniqueSubset | scripts/parse_hmmscan_agg.py:53 | unique labels stay unique in any sub-table |
| Pipeline.FiltersCompose | scripts/parse_hmmscan_agg.py:158-159 | the threshold filter then the cutoffs keep exactly the rows that pass both, in order |
| Pipeline.StagesKeepSurvivors | scripts/parse_hmmscan_agg.py:156-159 | best hit, coverage, thresholds and cutoffs in sequence leave exactly the survivors |
| Pipeline.SurvivorsExactly | scripts/parse_hmmscan_agg.py:156-159 | a group-best input hit is counted iff it passes thresholds and cutoffs with its coverage; every counted row is a group-best input hit with its own coverage; nothing else is counted |
| Pipeline.ScoredMembers | scripts/parse_hmmscan_agg.py:32-38 | a row of the coverage table is exactly an input hit paired with its own coverage |
| Pipeline.TallyRow | scripts/parse_hmmscan_agg.py:79-80 | a matrix row is the tally of its genome over the profile |
| Pipeline.MergedTally | scripts/parse_hmmscan_agg.py:161-162 | merging a count matrix gives, cell by cell, the merged tally of the counted rows |
| Pipeline.Run | scripts/parse_hmmscan_agg.py:155-162 | needs a nonzero profile length only on the hits `best_hit` keeps, the only rows the script divides by; fails with a KeyError iff the profile lacks a column the merge reads or a requested column other than "genome" and UbiFHILM; otherwise rows are the listed genomes plus the genomes with a surviving profile hit, and each cell is the merged count of surviving hits |

## Left out

- File and command-line handling is not modelled: `read_hmmscan_table`, `get_interm_table` (writes a table), argument parsing, path building, `to_csv` and the `print` calls.
- `get_genomes_list` is not modelled; its directory listing is the `genomes` parameter of `Matrix.GetResults` and `Pipeline.Run`.
- The contents of `gene_list` and `quinones_scores_cutoff` are not part of this model; they are parameters.
- Missing values are not modelled: NaN i-evalues (and the `dropna` after `idxmin`), NaN grouping keys, and the float columns `fillna` produces. Counts are naturals, scores and coverage are exact reals.
- Filters.Coverage: requires tlen != 0 on every row, which the source does not check; pandas would give an infinite or NaN coverage there.
- Selection.BestHit: requires the reader's increasing index labels; a table with duplicate labels would make `loc` return extra rows.
- Filters.ApplyCutga: its own contract states only that survivors are input rows that no cutoff rejects. Completeness and order are `Filters.CutoffsRemoveExactly`, which needs unique labels and distinct dictionary keys.
- Matrix.GetResults: the row order of the outer merge is pandas-defined and is not stated; the matrix is a map from genome to row.
- Matrix.GetResults: a profile gene named "genome", duplicate names in the profile, and the case of a pivot with no rows at all are not modelled.
- Matrix.GetResults: a genome listed twice would give two identical rows in pandas; the map holds one. Directory entries are unique, so the script's own genome list has no duplicates.
- Matrix.MergeCol: pandas reports every missing requested column in one KeyError; the model names one of them.
- Matrix.MergeCol: a quinone named "genome" gives pandas a second copy of the key column; the matrix holds the key column once and leaves such a request out of its count columns, because its cells are genome names, not counts.
- Pipeline.Run: a quinone named "genome" is treated as in `Matrix.MergeCol`: it succeeds, and the output has no second genome column.
- Taxonomy.GetFilenames: an FTP column that pandas reads as non-text (for example one with no values at all) makes `.str` raise an AttributeError, which is not caught; the model treats every cell as text or missing.
- Taxonomy.AddTaxonomy: the order of the joined rows and pandas' column-name suffixes on clashes are not stated; taxonomy columns other than the FTP paths and genome are opaque payload.
- Pipeline.Run: the taxonomy join of the script's optional last step is `Taxonomy.AddTaxonomy` applied to the result of `Pipeline.Run`; it is not chained inside it.
