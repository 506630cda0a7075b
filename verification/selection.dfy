/** Best-hit selection: for every (genome, query) pair keep the row with the
    smallest i-evalue (the first such row on ties), then restore index order. */
module Selection {
  import opened Seqs
  import opened Tables

  /** The grouping key of the best-hit step. */
  function GroupKey(h: Hit): (string, string) {
    (h.genome, h.query)
  }

  /** Among the first `n` rows, row `b` has the smallest i-evalue of its
      group, and every earlier row of the group is strictly worse. */
  predicate BestAmong(rows: seq<Hit>, b: int, n: int)
    requires 0 <= b < |rows| && n <= |rows|
  {
    forall j :: 0 <= j < n && GroupKey(rows[j]) == GroupKey(rows[b]) ==>
      rows[b].ievalue <= rows[j].ievalue && (j < b ==> rows[b].ievalue < rows[j].ievalue)
  }

  /** Row `i` is the one an index-of-minimum over its group picks. */
  predicate IsGroupBest(rows: seq<Hit>, i: int)
    requires 0 <= i < |rows|
  {
    BestAmong(rows, i, |rows|)
  }

  /** The group-best rows among the first `n`, in row order. */
  function Selected(rows: seq<Hit>, n: nat): seq<Hit>
    requires n <= |rows|
  {
    if n == 0 then []
    else Selected(rows, n - 1) + (if IsGroupBest(rows, n - 1) then [rows[n - 1]] else [])
  }

  /** A row is selected exactly when it sits at a group-best position. */
  lemma {:induction false} SelectedMembers(rows: seq<Hit>, n: nat)
    requires n <= |rows|
    ensures forall x :: x in Selected(rows, n) <==>
      exists i :: 0 <= i < n && IsGroupBest(rows, i) && rows[i] == x
  {
    if n > 0 {
      SelectedMembers(rows, n - 1);
    }
  }

  /** Selection keeps the input's order. */
  lemma {:induction false} SelectedSubseq(rows: seq<Hit>, n: nat)
    requires n <= |rows|
    ensures Subseq(Selected(rows, n), rows[..n])
  {
    if n > 0 {
      SelectedSubseq(rows, n - 1);
      var s, p := Selected(rows, n - 1), rows[..n];
      assert p[..|p| - 1] == rows[..n - 1];
      if IsGroupBest(rows, n - 1) {
        var r := s + [rows[n - 1]];
        assert r[..|r| - 1] == s;
      } else {
        assert Selected(rows, n) == s;
      }
    }
  }

  /** Selection keeps the index labels sorted, as the final `sort_index` does. */
  lemma {:induction false} SelectedIncreasing(rows: seq<Hit>, n: nat)
    requires n <= |rows|
    requires IdsIncreasing(rows)
    ensures IdsIncreasing(Selected(rows, n))
  {
    if n > 0 {
      SelectedIncreasing(rows, n - 1);
      SelectedMembers(rows, n - 1);
      var s := Selected(rows, n - 1);
      if IsGroupBest(rows, n - 1) {
        var r := s + [rows[n - 1]];
        forall i, j | 0 <= i < j < |r|
          ensures r[i].id < r[j].id
        {
          if j == |s| {
            assert r[i] in s;
          }
        }
      }
    }
  }

  /** A group has at most one best row. */
  lemma GroupBestUnique(rows: seq<Hit>, a: nat, b: nat)
    requires a < |rows| && b < |rows|
    requires GroupKey(rows[a]) == GroupKey(rows[b])
    requires IsGroupBest(rows, a) && IsGroupBest(rows, b)
    ensures a == b
  {
  }

  /** Every group met among the first `n` rows has a best row among them. */
  lemma {:induction false} BestAmongExists(rows: seq<Hit>, n: nat, k: (string, string))
    requires n <= |rows|
    requires exists j :: 0 <= j < n && GroupKey(rows[j]) == k
    ensures exists b :: 0 <= b < n && GroupKey(rows[b]) == k && BestAmong(rows, b, n)
  {
    var last := n - 1;
    if exists j :: 0 <= j < last && GroupKey(rows[j]) == k {
      BestAmongExists(rows, last, k);
      var b :| 0 <= b < last && GroupKey(rows[b]) == k && BestAmong(rows, b, last);
      if GroupKey(rows[last]) == k && rows[last].ievalue < rows[b].ievalue {
        assert BestAmong(rows, last, n);
      } else {
        assert BestAmong(rows, b, n);
      }
    } else {
      assert GroupKey(rows[last]) == k;
      assert BestAmong(rows, last, n);
    }
  }

  /** `groupby(['genome', 'query'])['i-evalue'].idxmin()`: the position of
      the best row of every group present. */
  method GroupIdxMin(rows: seq<Hit>) returns (idx: map<(string, string), nat>)
    ensures forall j :: 0 <= j < |rows| ==> GroupKey(rows[j]) in idx
    ensures forall k :: k in idx ==>
      idx[k] < |rows| && GroupKey(rows[idx[k]]) == k && IsGroupBest(rows, idx[k])
  {
    idx := map[];
    var i := 0;
    while i < |rows|
      invariant 0 <= i <= |rows|
      invariant forall k :: k in idx ==>
        idx[k] < i && GroupKey(rows[idx[k]]) == k && BestAmong(rows, idx[k], i)
      invariant forall j :: 0 <= j < i ==> GroupKey(rows[j]) in idx
    {
      var k := GroupKey(rows[i]);
      if k !in idx || rows[i].ievalue < rows[idx[k]].ievalue {
        idx := idx[k := i];
      }
      i := i + 1;
    }
  }

  /** Every (genome, query) pair present keeps a row. */
  lemma SelectedCoversGroups(rows: seq<Hit>)
    ensures forall j :: 0 <= j < |rows| ==>
      exists x :: x in Selected(rows, |rows|) && GroupKey(x) == GroupKey(rows[j])
  {
    SelectedMembers(rows, |rows|);
    forall j | 0 <= j < |rows|
      ensures exists x :: x in Selected(rows, |rows|) && GroupKey(x) == GroupKey(rows[j])
    {
      BestAmongExists(rows, |rows|, GroupKey(rows[j]));
      var b :| 0 <= b < |rows| && GroupKey(rows[b]) == GroupKey(rows[j]) && BestAmong(rows, b, |rows|);
      assert IsGroupBest(rows, b);
      assert rows[b] in Selected(rows, |rows|);
    }
  }

  /** No (genome, query) pair keeps two rows. */
  lemma SelectedOnePerGroup(rows: seq<Hit>)
    ensures forall x, y :: x in Selected(rows, |rows|) && y in Selected(rows, |rows|) && GroupKey(x) == GroupKey(y) ==> x == y
  {
    SelectedMembers(rows, |rows|);
    forall x, y | x in Selected(rows, |rows|) && y in Selected(rows, |rows|) && GroupKey(x) == GroupKey(y)
      ensures x == y
    {
      var a :| 0 <= a < |rows| && IsGroupBest(rows, a) && rows[a] == x;
      var b :| 0 <= b < |rows| && IsGroupBest(rows, b) && rows[b] == y;
      GroupBestUnique(rows, a, b);
    }
  }

  /** With distinct labels, a row is kept exactly when it is its group's best. */
  lemma SelectedExactlyBest(rows: seq<Hit>)
    requires IdsIncreasing(rows)
    ensures forall i :: 0 <= i < |rows| ==> (rows[i] in Selected(rows, |rows|) <==> IsGroupBest(rows, i))
  {
    SelectedMembers(rows, |rows|);
    forall i | 0 <= i < |rows| && rows[i] in Selected(rows, |rows|)
      ensures IsGroupBest(rows, i)
    {
      var a :| 0 <= a < |rows| && IsGroupBest(rows, a) && rows[a] == rows[i];
      assert a == i;
    }
  }

  /** `loc[...]` followed by `sort_index()`: the rows at the positions
      `GroupIdxMin` picked, in row order. */
  method KeepPicked(rows: seq<Hit>, idx: map<(string, string), nat>) returns (best: seq<Hit>)
    requires forall j :: 0 <= j < |rows| ==> GroupKey(rows[j]) in idx
    requires forall k :: k in idx ==>
      idx[k] < |rows| && GroupKey(rows[idx[k]]) == k && IsGroupBest(rows, idx[k])
    ensures best == Selected(rows, |rows|)
  {
    best := [];
    var i := 0;
    while i < |rows|
      invariant 0 <= i <= |rows|
      invariant best == Selected(rows, i)
    {
      var b := idx[GroupKey(rows[i])];
      if IsGroupBest(rows, i) {
        GroupBestUnique(rows, b, i);
      }
      if b == i {
        best := best + [rows[i]];
      }
      i := i + 1;
    }
  }

  /** `best_hit`: index-of-minimum per (genome, query) pair, then the picked
      rows in index order. It computes the reference selection `Selected`,
      whose properties are the lemmas above: a subsequence of the input, one
      row per pair present, the first row with the pair's smallest i-evalue. */
  method BestHit(rows: seq<Hit>) returns (best: seq<Hit>)
    requires IdsIncreasing(rows)
    ensures best == Selected(rows, |rows|)
  {
    var idx := GroupIdxMin(rows);
    best := KeepPicked(rows, idx);
  }
}
