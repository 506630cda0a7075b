/** Genome ids recovered from the FTP path columns of a taxonomy table, and
    the inner join of the count matrix with that table. */
module Taxonomy {
  import opened Wrappers
  import opened Tables

  // ------------------------------------------------------------ extract_id

  // Position `i` starts the text "/GC?_" that the pattern `(.*/)(GC._.*)`
  // needs right after its greedy prefix; `?` is any character but a line
  // break, which `.` does not match.
  predicate Marker(s: string, i: int) {
    0 <= i && i + 4 < |s| &&
    s[i] == '/' && s[i + 1] == 'G' && s[i + 2] == 'C' && s[i + 3] != '\n' && s[i + 4] == '_'
  }

  /** The end of the line holding position `i`: the next line break, or the end. */
  function LineEnd(s: string, i: nat): (e: nat)
    requires i <= |s|
    ensures i <= e <= |s|
    ensures e < |s| ==> s[e] == '\n'
    ensures forall k :: i <= k < e ==> s[k] != '\n'
    decreases |s| - i
  {
    if i == |s| || s[i] == '\n' then i else LineEnd(s, i + 1)
  }

  /** Positions of one line share its end. */
  lemma LineEndWithin(s: string, i: nat, j: nat)
    requires i <= |s| && i <= j <= LineEnd(s, i)
    ensures LineEnd(s, j) == LineEnd(s, i)
  {
  }

  /** The last marker in positions [lo, k). */
  function LastMarker(s: string, lo: nat, k: nat): (r: Option<nat>)
    requires lo <= k <= |s|
    ensures r.Some? ==> lo <= r.value < k && Marker(s, r.value)
    ensures r.Some? ==> forall j :: r.value < j < k ==> !Marker(s, j)
    ensures r.None? ==> forall j :: lo <= j < k ==> !Marker(s, j)
    decreases k
  {
    if k == lo then None
    else if Marker(s, k - 1) then Some(k - 1)
    else LastMarker(s, lo, k - 1)
  }

  /** The pattern's second group when the search starts at `start`, the
      beginning of a line: the first line holding a marker, its last marker,
      and the rest of that line. */
  ghost predicate Picks(s: string, start: nat, i: nat, id: string) {
    start <= i && Marker(s, i) &&
    (forall j :: start <= j < i && Marker(s, j) ==> LineEnd(s, j) == LineEnd(s, i)) &&
    (forall j :: i < j < LineEnd(s, i) ==> !Marker(s, j)) &&
    id == s[i + 1..LineEnd(s, i)]
  }

  /** A search that finds no marker before `next` picks what the search from `next` picks. */
  lemma PicksLaterLine(s: string, start: nat, next: nat, r: Option<string>)
    requires start <= next <= |s|
    requires forall j :: start <= j < next ==> !Marker(s, j)
    requires r.Some? ==> exists i :: Picks(s, next, i, r.value)
    ensures r.Some? ==> exists i :: Picks(s, start, i, r.value)
  {
    if r.Some? {
      var i :| Picks(s, next, i, r.value);
      assert Picks(s, start, i, r.value);
    }
  }

  /** The last marker of the line starting at `start` is what the search picks. */
  lemma PicksLastOfLine(s: string, start: nat, i: nat)
    requires start <= |s|
    requires LastMarker(s, start, LineEnd(s, start)) == Some(i)
    ensures i < LineEnd(s, start) <= |s|
    ensures Picks(s, start, i, s[i + 1..LineEnd(s, start)])
  {
    var e := LineEnd(s, start);
    LineEndWithin(s, start, i);
    forall j | start <= j < i && Marker(s, j) ensures LineEnd(s, j) == e {
      LineEndWithin(s, start, j);
    }
  }

  // `re.search` of `(.*/)(GC._.*)` from line start `start`, line by line.
  function ExtractFrom(s: string, start: nat): (r: Option<string>)
    requires start <= |s|
    ensures r.Some? <==> exists i :: start <= i && Marker(s, i)
    ensures r.Some? ==> exists i :: Picks(s, start, i, r.value)
    decreases |s| - start
  {
    var e := LineEnd(s, start);
    match LastMarker(s, start, e)
    case Some(i) =>
      PicksLastOfLine(s, start, i);
      Some(s[i + 1..e])
    case None =>
      if e == |s| then None
      else
        var r := ExtractFrom(s, e + 1);
        assert !Marker(s, e);
        PicksLaterLine(s, start, e + 1, r);
        r
  }

  /** `extract_id` on one cell: the second capture group, if the pattern matches. */
  function ExtractId(s: string): (r: Option<string>)
    ensures r.Some? <==> exists i :: Marker(s, i)
    ensures r.Some? ==> exists i :: Picks(s, 0, i, r.value)
  {
    ExtractFrom(s, 0)
  }

  /** An extracted id starts with "GC", one character and "_", and lies on one line. */
  lemma ExtractIdShape(s: string)
    requires ExtractId(s).Some?
    ensures |ExtractId(s).value| >= 4
    ensures ExtractId(s).value[0] == 'G' && ExtractId(s).value[1] == 'C' && ExtractId(s).value[3] == '_'
    ensures forall k :: 0 <= k < |ExtractId(s).value| ==> ExtractId(s).value[k] != '\n'
  {
    var id := ExtractId(s).value;
    var i: nat :| Picks(s, 0, i, id);
    PickedShape(s, i, id);
  }

  /** What the picked marker leaves in the id. */
  lemma PickedShape(s: string, i: nat, id: string)
    requires Picks(s, 0, i, id)
    ensures |id| >= 4 && id[0] == 'G' && id[1] == 'C' && id[3] == '_'
    ensures forall k :: 0 <= k < |id| ==> id[k] != '\n'
  {
    var e := LineEnd(s, i);
    LineEndPast(s, i, i + 4);
    forall k | 0 <= k < |id| ensures id[k] != '\n' {
      assert id[k] == s[i + 1 + k];
    }
  }

  /** A line runs past every position up to which no line break occurs. */
  lemma LineEndPast(s: string, i: nat, k: nat)
    requires i <= k < |s|
    requires forall j :: i <= j <= k ==> s[j] != '\n'
    ensures k < LineEnd(s, i)
  {
  }

  /** On a single-line path the id is everything after the last "/" that is
      followed by "GC", one character and "_". */
  lemma ExtractIdSingleLine(s: string)
    requires '\n' !in s
    ensures ExtractId(s).Some? ==>
      exists i :: Marker(s, i) && ExtractId(s).value == s[i + 1..] &&
        forall j :: i < j < |s| ==> !Marker(s, j)
  {
    if ExtractId(s).Some? {
      var i :| Picks(s, 0, i, ExtractId(s).value);
      assert LineEnd(s, i) == |s|;
    }
  }

  /** A directory named "GCF" is not an id: the character after "GC?" must be "_". */
  lemma ExtractIdExample()
    ensures ExtractId("a/GCF/GCA_1") == Some("GCA_1")
    ensures ExtractId("a/GCF/") == None
  {
    var s := "a/GCF/GCA_1";
    assert |s| == 11;
    assert forall k :: 0 <= k < |s| ==> s[k] != '\n';
    assert LineEnd(s, 0) == 11;
    assert Marker(s, 5) && !Marker(s, 6);
    assert LastMarker(s, 0, 11) == Some(5);
    assert s[6..11] == "GCA_1";
    var t := "a/GCF/";
    assert forall j :: 0 <= j < |t| ==> !Marker(t, j);
  }

  // --------------------------------------------------------- get_filenames

  /** A taxonomy row: the two FTP path cells, the genome cell and the other
      columns, carried along untouched. A missing cell is `None`. */
  datatype TaxRow = TaxRow(
    refseqFtp: Option<string>,
    genbankFtp: Option<string>,
    genome: Option<string>,
    payload: seq<string>)

  /** A taxonomy table and which of the columns the pipeline reads it has. */
  datatype TaxTable = TaxTable(hasRefSeqFtp: bool, hasGenBankFtp: bool, hasGenome: bool, rows: seq<TaxRow>)

  /** `extract_id` on a cell that may be missing. */
  function ExtractCell(c: Option<string>): (r: Option<string>)
    ensures r.Some? <==> c.Some? && exists i :: Marker(c.value, i)
  {
    match c
    case None => None
    case Some(s) => ExtractId(s)
  }

  /** The genome cell `get_filenames` writes: the RefSeq id, else the GenBank id. */
  function GenomeOf(row: TaxRow): (r: Option<string>)
    ensures r.None? <==> ExtractCell(row.refseqFtp).None? && ExtractCell(row.genbankFtp).None?
    ensures r.Some? ==> r == ExtractCell(row.refseqFtp) || r == ExtractCell(row.genbankFtp)
    ensures ExtractCell(row.refseqFtp).Some? ==> r == ExtractCell(row.refseqFtp)
  {
    match ExtractCell(row.refseqFtp)
    case Some(id) => Some(id)
    case None => ExtractCell(row.genbankFtp)
  }

  /** `get_filenames`: when both FTP columns exist every row gets a genome
      cell, taken from RefSeq when that path yields an id and from GenBank
      otherwise; when either column is missing the KeyError is swallowed and
      the table comes back unchanged. */
  function GetFilenames(t: TaxTable): (r: TaxTable)
    ensures !(t.hasRefSeqFtp && t.hasGenBankFtp) ==> r == t
    ensures t.hasRefSeqFtp && t.hasGenBankFtp ==>
      r.hasRefSeqFtp && r.hasGenBankFtp && r.hasGenome && |r.rows| == |t.rows|
    ensures t.hasRefSeqFtp && t.hasGenBankFtp ==> forall i :: 0 <= i < |r.rows| ==>
      r.rows[i].refseqFtp == t.rows[i].refseqFtp &&
      r.rows[i].genbankFtp == t.rows[i].genbankFtp &&
      r.rows[i].payload == t.rows[i].payload &&
      (ExtractCell(t.rows[i].refseqFtp).Some? ==> r.rows[i].genome == ExtractCell(t.rows[i].refseqFtp)) &&
      (ExtractCell(t.rows[i].refseqFtp).None? ==> r.rows[i].genome == ExtractCell(t.rows[i].genbankFtp))
  {
    if t.hasRefSeqFtp && t.hasGenBankFtp then
      TaxTable(true, true, true, seq(|t.rows|, i requires 0 <= i < |t.rows| => t.rows[i].(genome := GenomeOf(t.rows[i]))))
    else
      t
  }

  // ---------------------------------------------------------- add_taxonomy

  /** A row of the joined table: a matrix row next to a taxonomy row. */
  datatype Joined = Joined(genome: string, counts: map<string, nat>, tax: TaxRow)

  /** The taxonomy side of joined rows, in order. */
  function TaxParts(r: seq<Joined>): (t: seq<TaxRow>)
    ensures |t| == |r| && forall i :: 0 <= i < |r| ==> t[i] == r[i].tax
  {
    seq(|r|, i requires 0 <= i < |r| => r[i].tax)
  }

  /** A taxonomy row whose genome cell names a matrix genome. */
  predicate Matches(counts: map<string, map<string, nat>>, y: TaxRow) {
    y.genome.Some? && y.genome.value in counts
  }

  /** Inner join on the genome cell; a missing genome cell matches nothing.
      Each matching taxonomy row gives one joined row per copy of it. */
  function JoinRows(counts: map<string, map<string, nat>>, rows: seq<TaxRow>): (r: seq<Joined>)
    ensures forall j :: j in r <==>
      j.tax in rows && j.tax.genome == Some(j.genome) && j.genome in counts && j.counts == counts[j.genome]
    decreases |rows|
  {
    if rows == [] then []
    else
      var x := rows[0];
      assert rows == [x] + rows[1..];
      (if Matches(counts, x) then [Joined(x.genome.value, counts[x.genome.value], x)] else [])
      + JoinRows(counts, rows[1..])
  }

  /** The join keeps row multiplicity: a matching taxonomy row gives as many
      joined rows as it has copies, any other row gives none. */
  lemma JoinRowsCopies(counts: map<string, map<string, nat>>, rows: seq<TaxRow>)
    ensures forall y :: multiset(TaxParts(JoinRows(counts, rows)))[y] == (if Matches(counts, y) then multiset(rows)[y] else 0)
  {
    forall y {
      JoinRowsCopy(counts, rows, y);
    }
  }

  lemma {:induction false} JoinRowsCopy(counts: map<string, map<string, nat>>, rows: seq<TaxRow>, y: TaxRow)
    ensures multiset(TaxParts(JoinRows(counts, rows)))[y] == if Matches(counts, y) then multiset(rows)[y] else 0
    decreases |rows|
  {
    if rows != [] {
      var x, rest := rows[0], rows[1..];
      assert rows == [x] + rest;
      JoinRowsCons(counts, rows);
      JoinRowsCopy(counts, rest, y);
    }
  }

  /** The taxonomy side of the join, one input row at a time. */
  lemma JoinRowsCons(counts: map<string, map<string, nat>>, rows: seq<TaxRow>)
    requires rows != []
    ensures TaxParts(JoinRows(counts, rows)) ==
      (if Matches(counts, rows[0]) then [rows[0]] else []) + TaxParts(JoinRows(counts, rows[1..]))
  {
    var x, tail := rows[0], JoinRows(counts, rows[1..]);
    if Matches(counts, x) {
      var j := Joined(x.genome.value, counts[x.genome.value], x);
      assert JoinRows(counts, rows) == [j] + tail;
      assert TaxParts([j] + tail) == [x] + TaxParts(tail);
    } else {
      assert JoinRows(counts, rows) == tail;
    }
  }

  /** `add_taxonomy`: genome ids are filled in, then only genomes present on
      both sides are kept. Joining needs a genome column, so a table that has
      neither the FTP columns nor a genome column raises a KeyError. */
  function AddTaxonomy(table: CountTable, tax: TaxTable): (r: Result<seq<Joined>, KeyError>)
    ensures r.Failure? <==> !tax.hasGenome && !(tax.hasRefSeqFtp && tax.hasGenBankFtp)
    ensures r.Failure? ==> r.error == KeyError("genome")
    ensures r.Success? ==> forall j :: j in r.value <==>
      j.tax in GetFilenames(tax).rows && j.tax.genome == Some(j.genome) &&
      j.genome in table.counts && j.counts == table.counts[j.genome]
    ensures r.Success? ==> forall y :: multiset(TaxParts(r.value))[y] == (if Matches(table.counts, y) then multiset(GetFilenames(tax).rows)[y] else 0)
  {
    var named := GetFilenames(tax);
    JoinRowsCopies(table.counts, named.rows);
    if !named.hasGenome then Failure(KeyError("genome"))
    else Success(JoinRows(table.counts, named.rows))
  }
}
