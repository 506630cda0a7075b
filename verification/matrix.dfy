/** The genome-by-gene count matrix (`get_results`) and the merge of split
    gene columns into canonical ones (`merge_col`). */
module Matrix {
  import opened Wrappers
  import opened Seqs
  import opened Tables
  import opened Filters

  // ------------------------------------------------------------ counting

  /** How many rows carry genome `g` and target `t`. */
  function CountOf(rows: seq<Scored>, g: string, t: string): nat
    decreases |rows|
  {
    if rows == [] then 0
    else
      var last := rows[|rows| - 1].hit;
      CountOf(rows[..|rows| - 1], g, t) + (if last.genome == g && last.target == t then 1 else 0)
  }

  /** A count is positive exactly when some row has that genome and target. */
  lemma {:induction false} CountPositive(rows: seq<Scored>, g: string, t: string)
    ensures CountOf(rows, g, t) > 0 <==> exists x :: x in rows && x.hit.genome == g && x.hit.target == t
    decreases |rows|
  {
    if rows != [] {
      var init := rows[..|rows| - 1];
      assert rows == init + [rows[|rows| - 1]];
      CountPositive(init, g, t);
    }
  }

  /** A filter that keeps every (g, t) row leaves the (g, t) count alone. */
  lemma {:induction false} CountOfFilter(rows: seq<Scored>, p: Scored -> bool, g: string, t: string)
    requires forall x :: x in rows && x.hit.genome == g && x.hit.target == t ==> p(x)
    ensures CountOf(Filter(rows, p), g, t) == CountOf(rows, g, t)
    decreases |rows|
  {
    if rows != [] {
      var init, last := rows[..|rows| - 1], rows[|rows| - 1];
      assert rows == init + [last];
      CountOfFilter(init, p, g, t);
      FilterSnoc(init, last, p);
      CountOfSnoc(init, last, g, t);
      if p(last) {
        CountOfSnoc(Filter(init, p), last, g, t);
      }
    }
  }

  // --------------------------------------------------------------- pivot

  /** Adding one row to the count of its (genome, target) pair. */
  lemma CountOfSnoc(rows: seq<Scored>, x: Scored, g: string, t: string)
    ensures CountOf(rows + [x], g, t) ==
      CountOf(rows, g, t) + (if x.hit.genome == g && x.hit.target == t then 1 else 0)
  {
    assert (rows + [x])[..|rows|] == rows;
  }

  /** `p` is the pivot of `rows`: a row for exactly the genomes present, a
      cell for exactly the targets that genome hit, holding their number. */
  ghost predicate Pivots(p: map<string, map<string, nat>>, rows: seq<Scored>) {
    (forall g :: g in p <==> exists x :: x in rows && x.hit.genome == g) &&
    (forall g, t :: g in p ==> (t in p[g] <==> CountOf(rows, g, t) > 0)) &&
    (forall g, t :: g in p && t in p[g] ==> p[g][t] == CountOf(rows, g, t))
  }

  /** Counting one more row into the pivot. */
  function Bump(p: map<string, map<string, nat>>, x: Scored): map<string, map<string, nat>> {
    var row := if x.hit.genome in p then p[x.hit.genome] else map[];
    p[x.hit.genome := row[x.hit.target := (if x.hit.target in row then row[x.hit.target] else 0) + 1]]
  }

  /** Counting a row into the pivot of a prefix gives the pivot of the longer prefix. */
  lemma PivotStep(p: map<string, map<string, nat>>, rows: seq<Scored>, x: Scored)
    requires Pivots(p, rows)
    ensures Pivots(Bump(p, x), rows + [x])
  {
    var p' := Bump(p, x);
    forall g ensures g in p' <==> exists y :: y in rows + [x] && y.hit.genome == g {
      if g in p' && g !in p {
        assert x in rows + [x];
      }
    }
    forall g, t | g in p'
      ensures t in p'[g] <==> CountOf(rows + [x], g, t) > 0
      ensures t in p'[g] ==> p'[g][t] == CountOf(rows + [x], g, t)
    {
      CountOfSnoc(rows, x, g, t);
      CountPositive(rows, g, t);
    }
  }

  /** Counting the rows one after another into an empty pivot. */
  function PivotOf(rows: seq<Scored>): map<string, map<string, nat>>
    decreases |rows|
  {
    if rows == [] then map[] else Bump(PivotOf(rows[..|rows| - 1]), rows[|rows| - 1])
  }

  /** Counting the rows one by one yields their pivot. */
  lemma {:induction false} PivotOfPivots(rows: seq<Scored>)
    ensures Pivots(PivotOf(rows), rows)
    decreases |rows|
  {
    if rows != [] {
      var init := rows[..|rows| - 1];
      PivotOfPivots(init);
      PivotStep(PivotOf(init), init, rows[|rows| - 1]);
      assert init + [rows[|rows| - 1]] == rows;
    }
  }

  /** `pivot_table(..., aggfunc="size")`: per genome present, the number of
      rows of every target that genome has (absent pairs have no cell). */
  method Pivot(rows: seq<Scored>) returns (p: map<string, map<string, nat>>)
    ensures Pivots(p, rows)
  {
    p := map[];
    var i := 0;
    while i < |rows|
      invariant 0 <= i <= |rows|
      invariant p == PivotOf(rows[..i])
    {
      assert rows[..i + 1][..i] == rows[..i];
      p := Bump(p, rows[i]);
      i := i + 1;
    }
    assert rows[..i] == rows;
    PivotOfPivots(rows);
  }

  // --------------------------------------------------------- get_results

  /** A row of zeros over the given columns (a genome without hits after `fillna(0)`). */
  function ZeroRow(genes: seq<string>): map<string, nat> {
    map c | c in genes :: 0
  }

  /** `reindex(columns=...)` then `fillna(0)`: exactly the listed gene
      columns, 0 where the pivot had no cell. */
  function Reindex(p: map<string, map<string, nat>>, genes: seq<string>): (r: map<string, map<string, nat>>)
    ensures r.Keys == p.Keys
    ensures forall g, c :: g in r ==> (c in r[g] <==> c in genes)
    ensures forall g, c :: g in r && c in genes && c in p[g] ==> r[g][c] == p[g][c]
    ensures forall g, c :: g in r && c in genes && c !in p[g] ==> r[g][c] == 0
  {
    map g | g in p :: map c | c in genes :: if c in p[g] then p[g][c] else 0
  }

  /** `merge(..., how='outer')` with the genome list, then `fillna(0)`: a
      row for every listed genome and every pivot genome; a listed genome
      the pivot lacks gets zeros. */
  function OuterMerge(genomes: seq<string>, p: map<string, map<string, nat>>, genes: seq<string>): (r: map<string, map<string, nat>>)
    ensures forall g :: g in r <==> g in genomes || g in p
    ensures forall g :: g in p ==> r[g] == p[g]
    ensures forall g, c :: g in r && g !in p && c in genes ==> c in r[g] && r[g][c] == 0
    ensures forall g, c :: g in r && g !in p ==> (c in r[g] <==> c in genes)
  {
    map g | g in (set g | g in genomes) + p.Keys :: if g in p then p[g] else ZeroRow(genes)
  }

  /** `get_results`: the genome list is an input instead of a directory
      listing. Every listed genome has a row, so does every genome with a
      hit on a marker gene, and no other; the cell of genome g and gene t is
      the number of rows with genome g and target t. */
  method GetResults(rows: seq<Scored>, genomes: seq<string>, fullProfile: seq<string>) returns (table: CountTable)
    ensures table.genes == fullProfile
    ensures Rectangular(table)
    ensures forall g :: g in table.counts <==>
      g in genomes || exists x :: x in rows && x.hit.genome == g && x.hit.target in fullProfile
    ensures forall g, t :: g in table.counts && t in fullProfile ==> table.counts[g][t] == CountOf(rows, g, t)
  {
    var kept := FiltOnGenes(rows, fullProfile);
    var pivot := Pivot(kept);
    table := CountTable(fullProfile, OuterMerge(genomes, Reindex(pivot, fullProfile), fullProfile));
    forall g, t | g in table.counts && t in fullProfile
      ensures table.counts[g][t] == CountOf(rows, g, t)
    {
      CountOfFilter(rows, ProfileTest(fullProfile), g, t);
      CountPositive(kept, g, t);
    }
  }

  /** In a matrix as `get_results` returns it, a genome without any
      marker-gene hit (one that is there only because it is listed) has a
      row of zeros. */
  lemma AbsentGenomeIsZero(table: CountTable, rows: seq<Scored>, fullProfile: seq<string>, g: string)
    requires table.genes == fullProfile && Rectangular(table)
    requires forall g, t :: g in table.counts && t in fullProfile ==> table.counts[g][t] == CountOf(rows, g, t)
    requires g in table.counts
    requires forall x :: x in rows && x.hit.genome == g ==> x.hit.target !in fullProfile
    ensures table.counts[g] == ZeroRow(fullProfile)
  {
    forall t | t in fullProfile
      ensures table.counts[g][t] == 0
    {
      CountPositive(rows, g, t);
    }
  }

  // ------------------------------------------------------------- merge_col

  /** The columns `merge_col` reads, in the order it reads them. */
  const SourceColumns: seq<string> :=
    ["UbiT", "UbiT2", "MqnM", "MqnM2", "UbiX", "UbiX2", "RquA", "RquA2", "UbiFHILM_Cyano", "FMO_Cyano"]

  /** The column `merge_col` may create instead of reading. */
  const CreatedColumn: string := "UbiFHILM"

  /** The value a canonical column holds after the merge, read off the row
      before it: four split genes are summed into the first half, UbiFHILM is
      replaced by the sum of its two cyanobacterial forms. */
  function MergedCell(row: map<string, nat>, q: string): nat
    requires forall c :: c in SourceColumns ==> c in row
    requires q in row || q == CreatedColumn
  {
    if q == "UbiT" then row["UbiT"] + row["UbiT2"]
    else if q == "MqnM" then row["MqnM"] + row["MqnM2"]
    else if q == "UbiX" then row["UbiX"] + row["UbiX2"]
    else if q == "RquA" then row["RquA"] + row["RquA2"]
    else if q == CreatedColumn then row["UbiFHILM_Cyano"] + row["FMO_Cyano"]
    else row[q]
  }

  /** `df[dest] = df[left] + df[right]`: a KeyError names the first column read that is missing. */
  function AddColumns(t: CountTable, dest: string, left: string, right: string): (r: Result<CountTable, KeyError>)
    requires Rectangular(t)
    ensures r.Success? <==> left in t.genes && right in t.genes
    ensures r.Failure? ==> r.error.column !in t.genes && (r.error.column == left || r.error.column == right)
    ensures r.Success? ==> forall c :: c in r.value.genes <==> c in t.genes || c == dest
    ensures r.Success? ==> Rectangular(r.value) && r.value.counts.Keys == t.counts.Keys
    ensures r.Success? ==> forall g :: g in t.counts ==>
      dest in r.value.counts[g] &&
      r.value.counts[g][dest] == t.counts[g][left] + t.counts[g][right]
    ensures r.Success? ==> forall g, c :: g in t.counts && c in t.counts[g] && c != dest ==>
      c in r.value.counts[g] && r.value.counts[g][c] == t.counts[g][c]
  {
    if left !in t.genes then Failure(KeyError(left))
    else if right !in t.genes then Failure(KeyError(right))
    else
      var genes := if dest in t.genes then t.genes else t.genes + [dest];
      Success(CountTable(genes, map g | g in t.counts :: t.counts[g][dest := t.counts[g][left] + t.counts[g][right]]))
  }

  /** The count columns of a column selection: every selected column except
      the key column. */
  function CountColumns(cols: seq<string>): (r: seq<string>)
    ensures forall c :: c in r <==> c in cols && c != KeyColumn
  {
    Filter(cols, IsCountColumn)
  }

  predicate IsCountColumn(c: string) {
    c != KeyColumn
  }

  /** `df[cols]`: keep exactly the listed columns in that order; a KeyError
      names the first listed column that is missing. The key column always
      exists; pandas repeats it once per request, the matrix holds it once. */
  function Project(t: CountTable, cols: seq<string>): (r: Result<CountTable, KeyError>)
    requires Rectangular(t)
    ensures r.Success? <==> forall c :: c in cols ==> c == KeyColumn || c in t.genes
    ensures r.Failure? ==> r.error.column in cols && r.error.column != KeyColumn && r.error.column !in t.genes
    ensures r.Success? ==>
      r.value.genes == CountColumns(cols) && Rectangular(r.value) && r.value.counts.Keys == t.counts.Keys
    ensures r.Success? ==> forall g, c :: g in t.counts && c in cols && c != KeyColumn ==>
      r.value.counts[g][c] == t.counts[g][c]
  {
    if forall c :: c in cols ==> c == KeyColumn || c in t.genes then
      var genes := CountColumns(cols);
      Success(CountTable(genes, map g | g in t.counts :: map c | c in genes :: t.counts[g][c]))
    else
      var i := FirstMissing(cols, [KeyColumn] + t.genes);
      Failure(KeyError(cols[i]))
  }

  /** The position of the first entry of `cols` that `present` lacks. */
  function FirstMissing(cols: seq<string>, present: seq<string>): (i: nat)
    requires exists c :: c in cols && c !in present
    ensures i < |cols| && cols[i] !in present
    ensures forall j :: 0 <= j < i ==> cols[j] in present
  {
    if cols[0] !in present then 0
    else
      assert exists c :: c in cols[1..] && c !in present by {
        var c :| c in cols && c !in present;
        assert c != cols[0];
      }
      1 + FirstMissing(cols[1..], present)
  }

  /** One statement `df[dest] = df[left] + df[right]`. */
  datatype Assignment = Assignment(dest: string, left: string, right: string)

  /** The five assignments of `merge_col`, in source order. */
  const MergeAssignments: seq<Assignment> := [
    Assignment("UbiT", "UbiT", "UbiT2"),
    Assignment("MqnM", "MqnM", "MqnM2"),
    Assignment("UbiX", "UbiX", "UbiX2"),
    Assignment("RquA", "RquA", "RquA2"),
    Assignment(CreatedColumn, "UbiFHILM_Cyano", "FMO_Cyano")]

  /** The columns the assignments write. */
  function Dests(asg: seq<Assignment>): set<string> {
    set a | a in asg :: a.dest
  }

  /** No assignment reads a column an earlier one wrote, and no column is written twice. */
  predicate ReadsBeforeWrites(asg: seq<Assignment>) {
    forall i, j :: 0 <= i < j < |asg| ==>
      asg[j].left != asg[i].dest && asg[j].right != asg[i].dest && asg[j].dest != asg[i].dest
  }

  /** Every column the assignments read is among `genes`. */
  predicate ReadsPresent(asg: seq<Assignment>, genes: seq<string>) {
    forall a :: a in asg ==> a.left in genes && a.right in genes
  }

  /** A cell, or 0 for a column the row lacks. */
  function Lookup(row: map<string, nat>, c: string): nat {
    if c in row then row[c] else 0
  }

  /** Statements executed one after another; the first KeyError stops them. */
  function RunAssignments(t: CountTable, asg: seq<Assignment>): (r: Result<CountTable, KeyError>)
    requires Rectangular(t)
    ensures r.Success? ==> Rectangular(r.value) && r.value.counts.Keys == t.counts.Keys
    ensures r.Success? ==> forall c :: c in r.value.genes <==> c in t.genes || c in Dests(asg)
    decreases |asg|
  {
    if asg == [] then Success(t)
    else
      var t1 :- AddColumns(t, asg[0].dest, asg[0].left, asg[0].right);
      assert asg == [asg[0]] + asg[1..];
      RunAssignments(t1, asg[1..])
  }

  /** The value a column holds after the assignments, read off the row before them. */
  function Assigned(row: map<string, nat>, asg: seq<Assignment>, q: string): nat
    decreases |asg|
  {
    if asg == [] then Lookup(row, q)
    else if asg[0].dest == q then Lookup(row, asg[0].left) + Lookup(row, asg[0].right)
    else Assigned(row, asg[1..], q)
  }

  /** A column no assignment writes keeps its value. */
  lemma {:induction false} AssignedUnwritten(row: map<string, nat>, asg: seq<Assignment>, q: string)
    requires q !in Dests(asg)
    ensures Assigned(row, asg, q) == Lookup(row, q)
    decreases |asg|
  {
    if asg != [] {
      assert asg == [asg[0]] + asg[1..];
      AssignedUnwritten(row, asg[1..], q);
    }
  }

  /** Rows that differ only in a column the assignments neither read nor
      write give every other column the same value. */
  lemma {:induction false} AssignedFrame(row: map<string, nat>, row': map<string, nat>, asg: seq<Assignment>, d: string, q: string)
    requires forall c :: c != d ==> Lookup(row, c) == Lookup(row', c)
    requires forall a :: a in asg ==> a.left != d && a.right != d
    requires q != d
    ensures Assigned(row, asg, q) == Assigned(row', asg, q)
    decreases |asg|
  {
    if asg != [] {
      assert asg == [asg[0]] + asg[1..];
      AssignedFrame(row, row', asg[1..], d, q);
    }
  }

  /** The run succeeds exactly when every column read exists; a KeyError
      names a column some assignment reads that the table lacks. */
  lemma {:induction false} RunAssignmentsOutcome(t: CountTable, asg: seq<Assignment>)
    requires Rectangular(t)
    requires ReadsBeforeWrites(asg)
    ensures RunAssignments(t, asg).Success? <==> ReadsPresent(asg, t.genes)
    ensures RunAssignments(t, asg).Failure? ==>
      RunAssignments(t, asg).error.column !in t.genes &&
      exists a :: a in asg && RunAssignments(t, asg).error.column in {a.left, a.right}
    decreases |asg|
  {
    if asg != [] {
      var a, rest := asg[0], asg[1..];
      assert asg == [a] + rest;
      ReadsBeforeWritesTail(asg);
      var step := AddColumns(t, a.dest, a.left, a.right);
      if step.Success? {
        RunAssignmentsOutcome(step.value, rest);
      }
    }
  }

  /** The assignments after the first keep the discipline, and none of
      them reads or writes the column the first one writes. */
  lemma ReadsBeforeWritesTail(asg: seq<Assignment>)
    requires asg != [] && ReadsBeforeWrites(asg)
    ensures ReadsBeforeWrites(asg[1..])
    ensures asg[0].dest !in Dests(asg[1..])
    ensures forall b :: b in asg[1..] ==> b.left != asg[0].dest && b.right != asg[0].dest
  {
    var rest := asg[1..];
    assert forall i :: 0 <= i < |rest| ==> rest[i] == asg[i + 1];
  }

  /** A successful run is its first statement followed by the others. */
  lemma RunAssignmentsFirst(t: CountTable, asg: seq<Assignment>) returns (t1: CountTable)
    requires Rectangular(t)
    requires asg != [] && RunAssignments(t, asg).Success?
    ensures AddColumns(t, asg[0].dest, asg[0].left, asg[0].right) == Success(t1)
    ensures Rectangular(t1)
    ensures forall c :: c in t1.genes <==> c in t.genes || c == asg[0].dest
    ensures RunAssignments(t, asg) == RunAssignments(t1, asg[1..])
  {
    t1 := AddColumns(t, asg[0].dest, asg[0].left, asg[0].right).value;
  }

  /** One statement, seen through `Lookup`: the written column is the sum of
      the read ones, every other column is unchanged. */
  lemma AddColumnsLookup(t: CountTable, t1: CountTable, a: Assignment, g: string)
    requires Rectangular(t)
    requires AddColumns(t, a.dest, a.left, a.right) == Success(t1)
    requires g in t.counts
    ensures g in t1.counts
    ensures Lookup(t1.counts[g], a.dest) == Lookup(t.counts[g], a.left) + Lookup(t.counts[g], a.right)
    ensures forall c :: c != a.dest ==> Lookup(t.counts[g], c) == Lookup(t1.counts[g], c)
  {
  }

  /** A successful run agrees cell by cell with `Assigned`. */
  lemma {:induction false} RunAssignmentsCell(t: CountTable, asg: seq<Assignment>, g: string, q: string)
    requires Rectangular(t)
    requires ReadsBeforeWrites(asg)
    requires RunAssignments(t, asg).Success?
    requires g in t.counts && (q in t.genes || q in Dests(asg))
    ensures q in RunAssignments(t, asg).value.counts[g]
    ensures RunAssignments(t, asg).value.counts[g][q] == Assigned(t.counts[g], asg, q)
    decreases |asg|
  {
    if asg != [] {
      var a, rest := asg[0], asg[1..];
      ReadsBeforeWritesTail(asg);
      var t1 := RunAssignmentsFirst(t, asg);
      var row, row1 := t.counts[g], t1.counts[g];
      AddColumnsLookup(t, t1, a, g);
      assert q in t1.genes || q in Dests(rest) by {
        if q !in t.genes && q != a.dest {
          var b :| b in asg && b.dest == q;
          assert b in rest;
        }
      }
      RunAssignmentsCell(t1, rest, g, q);
      if q == a.dest {
        AssignedUnwritten(row1, rest, q);
      } else {
        AssignedFrame(row, row1, rest, a.dest, q);
      }
    }
  }

  /** The five column assignments of `merge_col`. */
  function MergeSplitColumns(t: CountTable): (r: Result<CountTable, KeyError>)
    requires Rectangular(t)
    ensures r.Success? ==> Rectangular(r.value) && r.value.counts.Keys == t.counts.Keys
    ensures r.Success? ==> forall c :: c in r.value.genes <==>
      c in t.genes || c == "UbiT" || c == "MqnM" || c == "UbiX" || c == "RquA" || c == CreatedColumn
  {
    MergeAssignmentsDests();
    RunAssignments(t, MergeAssignments)
  }

  /** What the five concrete assignments read and write. */
  lemma MergeAssignmentsShape()
    ensures ReadsBeforeWrites(MergeAssignments)
    ensures forall a :: a in MergeAssignments ==> a.left in SourceColumns && a.right in SourceColumns
  {
    var asg := MergeAssignments;
    assert forall a :: a in asg <==> a == asg[0] || a == asg[1] || a == asg[2] || a == asg[3] || a == asg[4];
  }

  /** The concrete assignments write the first halves of the four split
      genes and UbiFHILM. */
  lemma MergeAssignmentsDests()
    ensures forall c :: c in Dests(MergeAssignments) <==>
      c == "UbiT" || c == "MqnM" || c == "UbiX" || c == "RquA" || c == CreatedColumn
  {
    var asg := MergeAssignments;
    assert forall a :: a in asg <==> a == asg[0] || a == asg[1] || a == asg[2] || a == asg[3] || a == asg[4];
  }

  /** The concrete assignments read exactly the ten source columns. */
  lemma MergeAssignmentsReads(genes: seq<string>)
    ensures ReadsPresent(MergeAssignments, genes) <==> forall c :: c in SourceColumns ==> c in genes
  {
    MergeAssignmentsShape();
    var asg := MergeAssignments;
    if ReadsPresent(asg, genes) {
      assert asg[0] in asg && asg[1] in asg && asg[2] in asg && asg[3] in asg && asg[4] in asg;
      assert SourceColumns == [asg[0].left, asg[0].right, asg[1].left, asg[1].right, asg[2].left,
                               asg[2].right, asg[3].left, asg[3].right, asg[4].left, asg[4].right];
    }
  }

  /** The five assignments of `merge_col` compute `MergedCell`. */
  lemma MergeAssignmentsClosedForm(row: map<string, nat>, q: string)
    requires forall c :: c in SourceColumns ==> c in row
    requires q in row || q == CreatedColumn
    ensures Assigned(row, MergeAssignments, q) == MergedCell(row, q)
  {
    var asg := MergeAssignments;
    var a1, a2, a3, a4 := asg[1..], asg[2..], asg[3..], asg[4..];
    assert a1 == asg[1..] && a1[1..] == a2 && a2[1..] == a3 && a3[1..] == a4 && a4[1..] == [];
    assert SourceColumns[9] == "FMO_Cyano";
    if q == "UbiT" {
      assert Assigned(row, asg, q) == row["UbiT"] + row["UbiT2"];
    } else if q == "MqnM" {
      assert Assigned(row, asg, q) == Assigned(row, a1, q) == row["MqnM"] + row["MqnM2"];
    } else if q == "UbiX" {
      assert Assigned(row, a1, q) == Assigned(row, a2, q) == row["UbiX"] + row["UbiX2"];
    } else if q == "RquA" {
      assert Assigned(row, a2, q) == Assigned(row, a3, q) == row["RquA"] + row["RquA2"];
    } else if q == CreatedColumn {
      assert Assigned(row, asg, q) == Assigned(row, a1, q) == Assigned(row, a2, q) == Assigned(row, a3, q);
      assert Assigned(row, a3, q) == Assigned(row, a4, q) == row["UbiFHILM_Cyano"] + row["FMO_Cyano"];
    } else {
      assert Assigned(row, a3, q) == Assigned(row, a4, q) == Assigned(row, [], q) == row[q];
    }
  }

  /** The assignments succeed exactly when the ten source columns exist; a
      KeyError names a missing source column. */
  lemma MergeSplitColumnsOutcome(t: CountTable)
    requires Rectangular(t)
    ensures MergeSplitColumns(t).Success? <==> forall c :: c in SourceColumns ==> c in t.genes
    ensures MergeSplitColumns(t).Failure? ==>
      MergeSplitColumns(t).error.column !in t.genes && MergeSplitColumns(t).error.column in SourceColumns
  {
    MergeAssignmentsShape();
    MergeAssignmentsReads(t.genes);
    RunAssignmentsOutcome(t, MergeAssignments);
  }

  /** A successful merge keeps the old columns and adds UbiFHILM. */
  lemma MergeSplitColumnsGenes(t: CountTable)
    requires Rectangular(t)
    requires forall c :: c in SourceColumns ==> c in t.genes
    requires MergeSplitColumns(t).Success?
    ensures forall c :: c in MergeSplitColumns(t).value.genes <==> c in t.genes || c == CreatedColumn
  {
    var r := RunAssignments(t, MergeAssignments).value;
    assert forall c :: c in r.genes <==> c in t.genes || c in Dests(MergeAssignments);
    MergeAssignmentsDests();
    assert SourceColumns[0] == "UbiT" && SourceColumns[2] == "MqnM";
    assert SourceColumns[4] == "UbiX" && SourceColumns[6] == "RquA";
  }

  /** After the assignments every old column and the created UbiFHILM hold
      their merged values. */
  lemma MergeSplitColumnsCells(t: CountTable)
    requires Rectangular(t)
    requires forall c :: c in SourceColumns ==> c in t.genes
    requires MergeSplitColumns(t).Success?
    ensures forall g, q :: g in t.counts && (q in t.genes || q == CreatedColumn) ==>
      q in MergeSplitColumns(t).value.counts[g] &&
      MergeSplitColumns(t).value.counts[g][q] == MergedCell(t.counts[g], q)
  {
    forall g, q | g in t.counts && (q in t.genes || q == CreatedColumn)
      ensures q in MergeSplitColumns(t).value.counts[g] &&
        MergeSplitColumns(t).value.counts[g][q] == MergedCell(t.counts[g], q)
    {
      MergeSplitColumnsCell(t, g, q);
    }
    // Without this restatement the verifier does not carry the forall
    // statement over to the postcondition.
    assert forall g, q :: g in t.counts && (q in t.genes || q == CreatedColumn) ==>
      q in MergeSplitColumns(t).value.counts[g] &&
      MergeSplitColumns(t).value.counts[g][q] == MergedCell(t.counts[g], q);
  }

  lemma MergeSplitColumnsCell(t: CountTable, g: string, q: string)
    requires Rectangular(t)
    requires forall c :: c in SourceColumns ==> c in t.genes
    requires MergeSplitColumns(t).Success?
    requires g in t.counts && (q in t.genes || q == CreatedColumn)
    ensures q in MergeSplitColumns(t).value.counts[g]
    ensures MergeSplitColumns(t).value.counts[g][q] == MergedCell(t.counts[g], q)
  {
    MergeAssignmentsShape();
    MergeAssignmentsDests();
    RunAssignmentsCell(t, MergeAssignments, g, q);
    MergeAssignmentsClosedForm(t.counts[g], q);
  }

  /** Selecting `quinones` from the table the five assignments leave, in
      terms of the table before them. */
  lemma ProjectMerged(t: CountTable, quinones: seq<string>)
    requires Rectangular(t)
    requires forall c :: c in SourceColumns ==> c in t.genes
    requires MergeSplitColumns(t).Success?
    ensures Project(MergeSplitColumns(t).value, quinones).Success? <==>
      forall q :: q in quinones ==> q in t.genes || q == CreatedColumn || q == KeyColumn
    ensures Project(MergeSplitColumns(t).value, quinones).Failure? ==>
      Project(MergeSplitColumns(t).value, quinones).error.column !in t.genes
    ensures Project(MergeSplitColumns(t).value, quinones).Success? ==>
      Project(MergeSplitColumns(t).value, quinones).value.counts.Keys == t.counts.Keys
    ensures Project(MergeSplitColumns(t).value, quinones).Success? ==>
      forall g, q :: g in t.counts && q in quinones && q != KeyColumn ==>
        Project(MergeSplitColumns(t).value, quinones).value.counts[g][q] == MergedCell(t.counts[g], q)
  {
    MergeSplitColumnsGenes(t);
    MergeSplitColumnsCells(t);
  }

  /** `merge_col`: the five column assignments, then the projection onto
      "genome" followed by `quinones` (the key column comes first in every
      matrix, so the projection names only `quinones`). It succeeds exactly
      when every column it reads exists, and each kept count cell is then the
      merged value of the input row. A quinone named "genome" selects the key
      column again. */
  function MergeCol(t: CountTable, quinones: seq<string>): (r: Result<CountTable, KeyError>)
    requires Rectangular(t)
    ensures r.Success? <==>
      (forall c :: c in SourceColumns ==> c in t.genes) &&
      (forall q :: q in quinones ==> q in t.genes || q == CreatedColumn || q == KeyColumn)
    ensures r.Failure? ==>
      r.error.column !in t.genes && r.error.column != KeyColumn &&
      (r.error.column in SourceColumns || r.error.column in quinones)
    ensures r.Success? ==>
      r.value.genes == CountColumns(quinones) && Rectangular(r.value) && r.value.counts.Keys == t.counts.Keys
    ensures r.Success? ==> forall g, q :: g in t.counts && q in quinones && q != KeyColumn ==>
      r.value.counts[g][q] == MergedCell(t.counts[g], q)
  {
    MergeSplitColumnsOutcome(t);
    var merged :- MergeSplitColumns(t);
    ProjectMerged(t, quinones);
    Project(merged, quinones)
  }
}
