/** The script's main sequence without its file reading and writing:
    best hit per (genome, query), coverage, the two thresholds, the score
    cutoffs, the count matrix and the column merge. */
module Pipeline {
  import opened Wrappers
  import opened Seqs
  import opened Tables
  import opened Selection
  import opened Filters
  import opened Matrix

  /** A scored best hit that passes both thresholds and is not cut off. */
  predicate Survives(x: Scored, ievalThresh: real, covThresh: real, cutoffs: map<string, real>) {
    PassesThresholds(x, ievalThresh, covThresh) && !Rejected(x, cutoffs)
  }

  function SurvivorTest(ievalThresh: real, covThresh: real, cutoffs: map<string, real>): Scored -> bool {
    (x: Scored) => Survives(x, ievalThresh, covThresh, cutoffs)
  }

  /** Every hit `best_hit` keeps has a nonzero profile length; `coverage`
      divides by the length of exactly those hits. */
  predicate KeptHaveLength(rows: seq<Hit>) {
    forall k :: 0 <= k < |rows| && IsGroupBest(rows, k) ==> rows[k].tlen != 0
  }

  /** The rows the matrix counts, defined in one step from the input: the
      group-best hits, scored, that survive every filter. */
  function Survivors(rows: seq<Hit>, ievalThresh: real, covThresh: real, cutoffs: CutoffItems): seq<Scored>
    requires KeptHaveLength(rows)
  {
    SelectedMembers(rows, |rows|);
    Filter(Coverage(Selected(rows, |rows|)), SurvivorTest(ievalThresh, covThresh, CutoffMap(cutoffs)))
  }

  /** Hit `rows[k]` with its coverage. */
  function ScoredAt(rows: seq<Hit>, k: nat): Scored
    requires k < |rows| && rows[k].tlen != 0
  {
    Scored(rows[k], CoverageOf(rows[k]))
  }

  /** The survivors, row by row of the input: a hit is counted exactly when
      it is the best of its (genome, query) group and passes every filter
      with its coverage, and nothing else is counted. */
  lemma SurvivorsExactly(rows: seq<Hit>, ievalThresh: real, covThresh: real, cutoffs: CutoffItems)
    requires IdsIncreasing(rows)
    requires KeptHaveLength(rows)
    ensures forall k :: 0 <= k < |rows| && IsGroupBest(rows, k) ==>
      (ScoredAt(rows, k) in Survivors(rows, ievalThresh, covThresh, cutoffs) <==>
        Survives(ScoredAt(rows, k), ievalThresh, covThresh, CutoffMap(cutoffs)))
    ensures forall x, k :: x in Survivors(rows, ievalThresh, covThresh, cutoffs) && 0 <= k < |rows| && x.hit == rows[k] ==>
      IsGroupBest(rows, k) && x == ScoredAt(rows, k)
    ensures forall x :: x in Survivors(rows, ievalThresh, covThresh, cutoffs) ==>
      exists k :: 0 <= k < |rows| && x.hit == rows[k]
  {
    var best := Selected(rows, |rows|);
    SelectedMembers(rows, |rows|);
    SelectedExactlyBest(rows);
    ScoredMembers(best);
    var surv := Survivors(rows, ievalThresh, covThresh, cutoffs);
    forall x, k | x in surv && 0 <= k < |rows| && x.hit == rows[k]
      ensures IsGroupBest(rows, k) && x == ScoredAt(rows, k)
    {
      assert rows[k] in best;
    }
    forall x | x in surv
      ensures exists k :: 0 <= k < |rows| && x.hit == rows[k]
    {
      var k :| 0 <= k < |rows| && IsGroupBest(rows, k) && rows[k] == x.hit;
    }
  }

  /** A row of the coverage table is a hit of its input, scored with its own coverage. */
  lemma ScoredMembers(hits: seq<Hit>)
    requires forall h :: h in hits ==> h.tlen != 0
    ensures forall x: Scored :: x in Coverage(hits) <==> x.hit in hits && x == Scored(x.hit, CoverageOf(x.hit))
  {
    var cov := Coverage(hits);
    forall x | x in cov ensures x.hit in hits && x == Scored(x.hit, CoverageOf(x.hit)) {
      var j :| 0 <= j < |cov| && cov[j] == x;
    }
    forall x: Scored | x.hit in hits && x == Scored(x.hit, CoverageOf(x.hit)) ensures x in cov {
      var j :| 0 <= j < |hits| && hits[j] == x.hit;
      assert cov[j] == x;
    }
  }

  /** The counts of one genome over the given gene columns. */
  function Tally(rows: seq<Scored>, g: string, genes: seq<string>): map<string, nat> {
    map c | c in genes :: CountOf(rows, g, c)
  }

  /** Labels that are unique stay unique in any sub-table. */
  lemma IdsUniqueSubset(rows: seq<Scored>, sub: seq<Scored>)
    requires IdsUnique(rows)
    requires forall x :: x in sub ==> x in rows
    ensures IdsUnique(sub)
  {
  }

  /** The three filters in the order the script applies them keep exactly
      the survivors, in order. */
  lemma FiltersCompose(cov: seq<Scored>, ievalThresh: real, covThresh: real, cutoffs: CutoffItems)
    requires IdsUnique(cov)
    requires DistinctKeys(cutoffs)
    ensures ApplyCutga(FilterIevalCov(cov, ievalThresh, covThresh), cutoffs)
         == Filter(cov, SurvivorTest(ievalThresh, covThresh, CutoffMap(cutoffs)))
  {
    var filt := FilterIevalCov(cov, ievalThresh, covThresh);
    IdsUniqueSubset(cov, filt);
    CutoffsRemoveExactly(filt, cutoffs);
    FilterFilter(cov, ThresholdTest(ievalThresh, covThresh), NotRejected(CutoffMap(cutoffs)),
      SurvivorTest(ievalThresh, covThresh, CutoffMap(cutoffs)));
  }

  /** The rows left after best_hit, coverage and the three filters are the survivors. */
  lemma StagesKeepSurvivors(rows: seq<Hit>, ievalThresh: real, covThresh: real, cutoffs: CutoffItems)
    requires IdsIncreasing(rows)
    requires KeptHaveLength(rows)
    requires DistinctKeys(cutoffs)
    ensures forall h :: h in Selected(rows, |rows|) ==> h.tlen != 0
    ensures ApplyCutga(FilterIevalCov(Coverage(Selected(rows, |rows|)), ievalThresh, covThresh), cutoffs)
         == Survivors(rows, ievalThresh, covThresh, cutoffs)
  {
    var best := Selected(rows, |rows|);
    SelectedMembers(rows, |rows|);
    SelectedIncreasing(rows, |rows|);
    CoverageKeepsLabels(best);
    FiltersCompose(Coverage(best), ievalThresh, covThresh, cutoffs);
  }

  /** Merging a count matrix over `genes` gives, cell by cell, the merged tally. */
  lemma MergedTally(table: CountTable, rows: seq<Scored>, genes: seq<string>, quinones: seq<string>)
    requires table.genes == genes && Rectangular(table)
    requires forall g, t :: g in table.counts && t in genes ==> table.counts[g][t] == CountOf(rows, g, t)
    requires MergeCol(table, quinones).Success?
    ensures forall g, q :: g in table.counts && q in quinones && q != KeyColumn ==>
      (forall c :: c in SourceColumns ==> c in Tally(rows, g, genes)) &&
      (q in Tally(rows, g, genes) || q == CreatedColumn) &&
      MergeCol(table, quinones).value.counts[g][q] == MergedCell(Tally(rows, g, genes), q)
  {
    forall g, q | g in table.counts && q in quinones && q != KeyColumn
      ensures (forall c :: c in SourceColumns ==> c in Tally(rows, g, genes))
      ensures q in Tally(rows, g, genes) || q == CreatedColumn
      ensures MergeCol(table, quinones).value.counts[g][q] == MergedCell(Tally(rows, g, genes), q)
    {
      TallyRow(table, rows, genes, g);
    }
  }

  /** A row of a count matrix over `genes` is the tally of its genome. */
  lemma TallyRow(table: CountTable, rows: seq<Scored>, genes: seq<string>, g: string)
    requires table.genes == genes && Rectangular(table)
    requires forall g, t :: g in table.counts && t in genes ==> table.counts[g][t] == CountOf(rows, g, t)
    requires g in table.counts
    ensures table.counts[g] == Tally(rows, g, genes)
  {
    var row, tally := table.counts[g], Tally(rows, g, genes);
    assert forall c :: c in row <==> c in tally;
    assert forall c :: c in row ==> row[c] == tally[c];
  }

  /** The main sequence of the script, from the hit table to the merged
      count matrix. The genome list of the dataset directory is an input.
      It fails with the KeyError `merge_col` raises exactly when the gene
      profile lacks a column the merge reads or selects; otherwise every listed genome
      and every genome with a surviving marker-gene hit has a row, and each
      cell is the merged count of surviving hits. */
  method Run(rows: seq<Hit>, ievalThresh: real, covThresh: real, cutoffs: CutoffItems,
             genomes: seq<string>, fullProfile: seq<string>, quinones: seq<string>)
    returns (r: Result<CountTable, KeyError>)
    requires IdsIncreasing(rows)
    requires KeptHaveLength(rows)
    requires DistinctKeys(cutoffs)
    ensures r.Success? <==>
      (forall c :: c in SourceColumns ==> c in fullProfile) &&
      (forall q :: q in quinones ==> q in fullProfile || q == CreatedColumn || q == KeyColumn)
    ensures r.Failure? ==>
      r.error.column !in fullProfile && r.error.column != KeyColumn &&
      (r.error.column in SourceColumns || r.error.column in quinones)
    ensures r.Success? ==> r.value.genes == CountColumns(quinones) && Rectangular(r.value)
    ensures r.Success? ==> forall g :: g in r.value.counts <==>
      g in genomes ||
      exists x :: x in Survivors(rows, ievalThresh, covThresh, cutoffs) && x.hit.genome == g && x.hit.target in fullProfile
    ensures r.Success? ==> forall g, q :: g in r.value.counts && q in quinones && q != KeyColumn ==>
      r.value.counts[g][q] == MergedCell(Tally(Survivors(rows, ievalThresh, covThresh, cutoffs), g, fullProfile), q)
  {
    StagesKeepSurvivors(rows, ievalThresh, covThresh, cutoffs);
    var best := BestHit(rows);
    var cov := Coverage(best);
    var filt := FilterIevalCov(cov, ievalThresh, covThresh);
    var cut := ApplyCutga(filt, cutoffs);
    var table := GetResults(cut, genomes, fullProfile);
    r := MergeCol(table, quinones);
    if r.Success? {
      MergedTally(table, cut, fullProfile, quinones);
    }
  }
}
