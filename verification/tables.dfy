/** The tables the pipeline passes from stage to stage. */
module Tables {

  /** One row of the hit table: the columns the pipeline reads. `id` is the
      row's index label, which the reader assigns as 0, 1, 2, ... */
  datatype Hit = Hit(
    id: nat,
    genome: string,
    target: string,
    query: string,
    tlen: int,
    hmmFrom: int,
    hmmTo: int,
    ievalue: real,
    score: real)

  /** A hit row after the coverage column has been added. */
  datatype Scored = Scored(hit: Hit, coverage: real)

  /** Looking up a column the table does not have. */
  datatype KeyError = KeyError(column: string)

  /** The genome-by-gene matrix: the columns are "genome" followed by
      `genes`, and `counts[g][c]` is the cell of genome `g` in column `c`.
      The row order of the table is not part of the model. */
  datatype CountTable = CountTable(genes: seq<string>, counts: map<string, map<string, nat>>)

  /** The matrix's key column: it holds genome names, not counts. */
  const KeyColumn: string := "genome"

  /** Index labels in increasing order, as the reader's default index gives them. */
  predicate IdsIncreasing(rows: seq<Hit>) {
    forall i, j :: 0 <= i < j < |rows| ==> rows[i].id < rows[j].id
  }

  /** No index label is carried by two different rows. */
  predicate IdsUnique(rows: seq<Scored>) {
    forall a, b :: a in rows && b in rows && a.hit.id == b.hit.id ==> a == b
  }

  /** Every row of the matrix has a cell for every column and no other. */
  ghost predicate Rectangular(t: CountTable) {
    forall g, c :: g in t.counts ==> (c in t.counts[g] <==> c in t.genes)
  }
}
