/** The row-level stages between best-hit selection and the count matrix:
    the coverage column, the i-evalue/coverage thresholds, the per-target
    score cutoffs and the marker-gene filter. */
module Filters {
  import opened Seqs
  import opened Tables

  // ---------------------------------------------------------------- coverage

  /** Fraction of the profile covered by the alignment. */
  function CoverageOf(h: Hit): real
    requires h.tlen != 0
  {
    (h.hmmTo - h.hmmFrom + 1) as real / h.tlen as real
  }

  /** `coverage`: every row gains coverage * tlen = hmm_to - hmm_from + 1;
      nothing else changes, and no row is added, dropped or moved. */
  function Coverage(rows: seq<Hit>): (r: seq<Scored>)
    requires forall h :: h in rows ==> h.tlen != 0
    ensures |r| == |rows|
    ensures forall i :: 0 <= i < |r| ==>
      r[i].hit == rows[i] &&
      r[i].coverage * rows[i].tlen as real == (rows[i].hmmTo - rows[i].hmmFrom + 1) as real
  {
    seq(|rows|, i requires 0 <= i < |rows| => Scored(rows[i], CoverageOf(rows[i])))
  }

  /** An alignment inside the profile covers a fraction in (0, 1]. */
  lemma CoverageInUnitInterval(h: Hit)
    requires 1 <= h.hmmFrom <= h.hmmTo <= h.tlen
    ensures 0.0 < CoverageOf(h) <= 1.0
  {
    var span, len := (h.hmmTo - h.hmmFrom + 1) as real, h.tlen as real;
    assert CoverageOf(h) * len == span;
  }

  /** An alignment over profile positions 1..100 of a 200-long profile covers half of it. */
  lemma CoverageExample(h: Hit)
    requires h.hmmFrom == 1 && h.hmmTo == 100 && h.tlen == 200
    ensures CoverageOf(h) == 0.5
  {
  }

  /** Labels that are distinct before the coverage step stay distinct. */
  lemma CoverageKeepsLabels(rows: seq<Hit>)
    requires forall h :: h in rows ==> h.tlen != 0
    requires IdsIncreasing(rows)
    ensures IdsUnique(Coverage(rows))
  {
    var r := Coverage(rows);
    forall a, b | a in r && b in r && a.hit.id == b.hit.id
      ensures a == b
    {
      var i :| 0 <= i < |r| && r[i] == a;
      var j :| 0 <= j < |r| && r[j] == b;
      assert rows[i].id == rows[j].id;
      assert i == j;
    }
  }

  // -------------------------------------------------------------- thresholds

  predicate PassesThresholds(x: Scored, ievalThresh: real, covThresh: real) {
    x.hit.ievalue <= ievalThresh && x.coverage >= covThresh
  }

  function ThresholdTest(ievalThresh: real, covThresh: real): Scored -> bool {
    x => PassesThresholds(x, ievalThresh, covThresh)
  }

  /** `filter_ieval_cov`: keep a row iff its i-evalue is at most the i-evalue
      threshold and its coverage at least the coverage threshold; a kept row
      keeps all its copies. */
  function FilterIevalCov(rows: seq<Scored>, ievalThresh: real, covThresh: real): (r: seq<Scored>)
    ensures Subseq(r, rows)
    ensures forall x :: x in r <==> x in rows && x.hit.ievalue <= ievalThresh && x.coverage >= covThresh
    ensures forall x :: multiset(r)[x] == (if PassesThresholds(x, ievalThresh, covThresh) then multiset(rows)[x] else 0)
  {
    FilterCount(rows, ThresholdTest(ievalThresh, covThresh));
    Filter(rows, ThresholdTest(ievalThresh, covThresh))
  }

  /** Tightening either threshold keeps a sub-table of what the looser
      thresholds keep: filtering again with the tighter ones. */
  lemma ThresholdTightening(rows: seq<Scored>, loIeval: real, hiCov: real, ieval: real, cov: real)
    requires loIeval <= ieval && hiCov >= cov
    ensures FilterIevalCov(rows, loIeval, hiCov) == FilterIevalCov(FilterIevalCov(rows, ieval, cov), loIeval, hiCov)
    ensures Subseq(FilterIevalCov(rows, loIeval, hiCov), FilterIevalCov(rows, ieval, cov))
  {
    FilterFilter(rows, ThresholdTest(ieval, cov), ThresholdTest(loIeval, hiCov), ThresholdTest(loIeval, hiCov));
  }

  // ----------------------------------------------------------------- cutoffs

  /** The cutoff dictionary as Python iterates it: (target, minimum score)
      items in insertion order. */
  type CutoffItems = seq<(string, real)>

  /** A dictionary never holds a key twice. */
  predicate DistinctKeys(items: CutoffItems) {
    forall i, j :: 0 <= i < j < |items| ==> items[i].0 != items[j].0
  }

  /** The dictionary the items spell out. */
  function CutoffMap(items: CutoffItems): (m: map<string, real>)
    ensures m.Keys == set i | 0 <= i < |items| :: items[i].0
    ensures DistinctKeys(items) ==> forall i :: 0 <= i < |items| ==> m[items[i].0] == items[i].1
    decreases |items|
  {
    if items == [] then map[]
    else
      var rest := CutoffMap(items[1..]);
      assert forall i :: 0 < i < |items| ==> items[i] == items[1..][i - 1];
      assert (set i | 0 <= i < |items| :: items[i].0)
        == (set i | 0 <= i < |items[1..]| :: items[1..][i].0) + {items[0].0};
      rest[items[0].0 := items[0].1]
  }

  /** A row the cutoffs reject: its target has a cutoff and its score does not exceed it. */
  predicate Rejected(x: Scored, cutoffs: map<string, real>) {
    x.hit.target in cutoffs && x.hit.score <= cutoffs[x.hit.target]
  }

  function NotRejected(cutoffs: map<string, real>): Scored -> bool {
    x => !Rejected(x, cutoffs)
  }

  function OutsideLabels(labels: set<nat>): Scored -> bool {
    (x: Scored) => x.hit.id !in labels
  }

  /** The labels of the rows one dictionary entry matches. */
  function MatchLabels(rows: seq<Scored>, key: string, value: real): set<nat> {
    set x | x in rows && x.hit.target == key && x.hit.score <= value :: x.hit.id
  }

  /** The labels of the rows the whole dictionary rejects. */
  function RejectedLabels(rows: seq<Scored>, cutoffs: map<string, real>): set<nat> {
    set x | x in rows && Rejected(x, cutoffs) :: x.hit.id
  }

  /** One iteration of the loop: `drop` every row whose label is the label of
      a matching row. No matching row survives; with unique labels nothing
      else is dropped. */
  function DropMatching(rows: seq<Scored>, key: string, value: real): (r: seq<Scored>)
    ensures Subseq(r, rows)
    ensures forall x :: x in r ==> x in rows && !(x.hit.target == key && x.hit.score <= value)
    ensures IdsUnique(rows) ==> forall x :: x in r <==> x in rows && !(x.hit.target == key && x.hit.score <= value)
  {
    Filter(rows, OutsideLabels(MatchLabels(rows, key, value)))
  }

  /** `apply_cutga`: the dictionary entries applied one after another in
      iteration order. No surviving row is rejected by any cutoff. */
  function ApplyCutga(rows: seq<Scored>, items: CutoffItems): (r: seq<Scored>)
    ensures forall x :: x in r ==> x in rows && !Rejected(x, CutoffMap(items))
    decreases |items|
  {
    if items == [] then rows
    else ApplyCutga(DropMatching(rows, items[0].0, items[0].1), items[1..])
  }

  /** The labels rejected by one more entry are the labels it matches plus
      the labels the remaining entries reject among the rows it left. */
  lemma RejectedLabelsStep(rows: seq<Scored>, key: string, value: real, rest: map<string, real>)
    requires key !in rest
    ensures RejectedLabels(rows, rest[key := value])
      == MatchLabels(rows, key, value) + RejectedLabels(DropMatching(rows, key, value), rest)
  {
    var m, l := rest[key := value], MatchLabels(rows, key, value);
    var kept := DropMatching(rows, key, value);
    forall id | id in RejectedLabels(rows, m)
      ensures id in l + RejectedLabels(kept, rest)
    {
      var y :| y in rows && Rejected(y, m) && y.hit.id == id;
      if y.hit.target != key && id !in l {
        assert y in kept;
      }
    }
    forall id | id in RejectedLabels(kept, rest)
      ensures id in RejectedLabels(rows, m)
    {
      var y :| y in kept && Rejected(y, rest) && y.hit.id == id;
      assert y in rows && Rejected(y, m);
    }
  }

  /** Whatever the iteration order, the loop drops exactly the rows that
      share a label with some row the dictionary rejects. */
  lemma {:induction false} ApplyCutgaByLabels(rows: seq<Scored>, items: CutoffItems)
    requires DistinctKeys(items)
    ensures ApplyCutga(rows, items) == Filter(rows, OutsideLabels(RejectedLabels(rows, CutoffMap(items))))
    decreases |items|
  {
    if items == [] {
      FilterAll(rows, OutsideLabels(RejectedLabels(rows, CutoffMap(items))));
    } else {
      var key, value, rest := items[0].0, items[0].1, items[1..];
      var kept := DropMatching(rows, key, value);
      assert key !in CutoffMap(rest) by {
        forall i | 0 <= i < |rest| ensures rest[i].0 != key {
          assert rest[i] == items[i + 1];
        }
      }
      assert DistinctKeys(rest) by {
        forall i, j | 0 <= i < j < |rest| ensures rest[i].0 != rest[j].0 {
          assert rest[i] == items[i + 1] && rest[j] == items[j + 1];
        }
      }
      ApplyCutgaByLabels(kept, rest);
      RejectedLabelsStep(rows, key, value, CutoffMap(rest));
      FilterFilter(rows, OutsideLabels(MatchLabels(rows, key, value)),
        OutsideLabels(RejectedLabels(kept, CutoffMap(rest))),
        OutsideLabels(RejectedLabels(rows, CutoffMap(items))));
    }
  }

  /** With distinct labels the cutoffs remove exactly the rejected rows, and
      rows whose target has no cutoff are never touched. */
  lemma CutoffsRemoveExactly(rows: seq<Scored>, items: CutoffItems)
    requires IdsUnique(rows)
    requires DistinctKeys(items)
    ensures ApplyCutga(rows, items) == Filter(rows, NotRejected(CutoffMap(items)))
    ensures Subseq(ApplyCutga(rows, items), rows)
    ensures forall x :: x in ApplyCutga(rows, items) <==> x in rows && !Rejected(x, CutoffMap(items))
    ensures forall x :: x in rows && x.hit.target !in CutoffMap(items) ==> x in ApplyCutga(rows, items)
  {
    var m := CutoffMap(items);
    ApplyCutgaByLabels(rows, items);
    forall x | x in rows
      ensures OutsideLabels(RejectedLabels(rows, m))(x) == NotRejected(m)(x)
    {
      if x.hit.id in RejectedLabels(rows, m) {
        var y :| y in rows && Rejected(y, m) && y.hit.id == x.hit.id;
        assert y == x;
      }
    }
    FilterExt(rows, OutsideLabels(RejectedLabels(rows, m)), NotRejected(m));
  }

  /** The same dictionary items in any iteration order give the same table. */
  lemma CutoffOrderIrrelevant(rows: seq<Scored>, items: CutoffItems, reordered: CutoffItems)
    requires DistinctKeys(items) && DistinctKeys(reordered)
    requires forall kv :: kv in items <==> kv in reordered
    ensures ApplyCutga(rows, items) == ApplyCutga(rows, reordered)
  {
    var m, m' := CutoffMap(items), CutoffMap(reordered);
    forall k | k in m ensures k in m' && m'[k] == m[k] {
      var i :| 0 <= i < |items| && items[i].0 == k;
      assert items[i] in reordered;
      var j :| 0 <= j < |reordered| && reordered[j] == items[i];
    }
    forall k | k in m' ensures k in m {
      var j :| 0 <= j < |reordered| && reordered[j].0 == k;
      assert reordered[j] in items;
      var i :| 0 <= i < |items| && items[i] == reordered[j];
    }
    assert m == m';
    ApplyCutgaByLabels(rows, items);
    ApplyCutgaByLabels(rows, reordered);
  }

  /** Applying the cutoffs a second time changes nothing. */
  lemma CutoffIdempotent(rows: seq<Scored>, items: CutoffItems)
    requires DistinctKeys(items)
    ensures ApplyCutga(ApplyCutga(rows, items), items) == ApplyCutga(rows, items)
  {
    var once := ApplyCutga(rows, items);
    var m := CutoffMap(items);
    ApplyCutgaByLabels(once, items);
    assert RejectedLabels(once, m) == {};
    FilterAll(once, OutsideLabels({}));
  }

  /** With the single cutoff GeneA: 50, a GeneA row scoring 40 or exactly 50
      is dropped, one scoring 60 is kept, and a GeneB row is kept whatever
      its score. */
  lemma CutoffExample(rows: seq<Scored>, a40: Scored, a50: Scored, a60: Scored, b: Scored)
    requires IdsUnique(rows)
    requires a40 in rows && a40.hit.target == "GeneA" && a40.hit.score == 40.0
    requires a50 in rows && a50.hit.target == "GeneA" && a50.hit.score == 50.0
    requires a60 in rows && a60.hit.target == "GeneA" && a60.hit.score == 60.0
    requires b in rows && b.hit.target == "GeneB"
    ensures a40 !in ApplyCutga(rows, [("GeneA", 50.0)])
    ensures a50 !in ApplyCutga(rows, [("GeneA", 50.0)])
    ensures a60 in ApplyCutga(rows, [("GeneA", 50.0)])
    ensures b in ApplyCutga(rows, [("GeneA", 50.0)])
  {
    var items: CutoffItems := [("GeneA", 50.0)];
    CutoffsRemoveExactly(rows, items);
    assert CutoffMap(items) == map["GeneA" := 50.0];
  }

  // -------------------------------------------------------------- gene set

  function ProfileTest(genes: seq<string>): Scored -> bool {
    (x: Scored) => x.hit.target in genes
  }

  /** `filt_on_genes`: keep the rows whose target is in the marker-gene
      list, every copy of them. */
  function FiltOnGenes(rows: seq<Scored>, genes: seq<string>): (r: seq<Scored>)
    ensures Subseq(r, rows)
    ensures forall x :: x in r <==> x in rows && x.hit.target in genes
    ensures forall x :: multiset(r)[x] == if x.hit.target in genes then multiset(rows)[x] else 0
  {
    FilterCount(rows, ProfileTest(genes));
    Filter(rows, ProfileTest(genes))
  }
}
