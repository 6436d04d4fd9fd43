/**
  The table the engine works on: rows of string cells (ragged rows allowed), its
  `stringstream` serialisation (cells joined by ',', every row ended by '\n'), the
  per-cell rewrite shared by the string-returning operators, and per-cell counting.
*/
module Tables {
  import opened Streams

  type Row = seq<string>
  type Table = seq<Row>

  /** What the tokeniser guarantees of its output: non-empty rows whose cells hold neither ',' nor '\n'. */
  ghost predicate WellFormed(t: Table)
  {
    forall row :: row in t ==> row != [] && Free(row, ',') && Free(row, '\n')
  }

  /** Each row as the text `rowStr` the source builds for it. */
  function RowStrings(t: Table): (lines: seq<string>)
    ensures |lines| == |t|
    ensures forall i :: 0 <= i < |t| ==> lines[i] == Join(t[i], ',')
  {
    seq(|t|, i requires 0 <= i < |t| => Join(t[i], ','))
  }

  /** The output text: every row joined with ',' and followed by '\n'. */
  function Render(t: Table): string
  {
    Terminated(RowStrings(t), '\n')
  }

  lemma RenderSnoc(t: Table, row: Row)
    ensures Render(t + [row]) == Render(t) + Join(row, ',') + "\n"
  {
    assert RowStrings(t + [row]) == RowStrings(t) + [Join(row, ',')];
    TerminatedSnoc(RowStrings(t), Join(row, ','), '\n');
  }

  function MapRow(row: Row, f: string -> string): (r: Row)
    ensures |r| == |row|
    ensures forall j :: 0 <= j < |row| ==> r[j] == f(row[j])
  {
    seq(|row|, j requires 0 <= j < |row| => f(row[j]))
  }

  /** The table with `f` applied to every cell: same shape, each cell rewritten. */
  function MapCells(t: Table, f: string -> string): (r: Table)
    ensures |r| == |t|
    ensures forall i :: 0 <= i < |t| ==> r[i] == MapRow(t[i], f)
  {
    seq(|t|, i requires 0 <= i < |t| => MapRow(t[i], f))
  }

  /** A per-cell map that is idempotent on cells is idempotent on tables. */
  lemma MapCellsIdempotent(t: Table, f: string -> string)
    requires forall c :: f(f(c)) == f(c)
    ensures MapCells(MapCells(t, f), f) == MapCells(t, f)
  {
    var once := MapCells(t, f);
    forall i | 0 <= i < |t|
      ensures MapCells(once, f)[i] == once[i]
    {
      assert MapRow(once[i], f) == once[i];
    }
  }

  /** Number of cells of `row` satisfying `p`. */
  function RowCount(row: Row, p: string -> bool): (n: nat)
    ensures n <= |row|
  {
    if row == [] then 0
    else RowCount(row[..|row| - 1], p) + (if p(row[|row| - 1]) then 1 else 0)
  }

  /** Number of cells of `t` satisfying `p`, row by row. */
  function CellCount(t: Table, p: string -> bool): nat
  {
    if t == [] then 0 else CellCount(t[..|t| - 1], p) + RowCount(t[|t| - 1], p)
  }

  /** Total number of cells. */
  function Size(t: Table): nat
  {
    if t == [] then 0 else Size(t[..|t| - 1]) + |t[|t| - 1]|
  }

  lemma {:induction false} RowCountMonotone(row: Row, p: string -> bool, q: string -> bool)
    requires forall c :: p(c) ==> q(c)
    ensures RowCount(row, p) <= RowCount(row, q)
    decreases |row|
  {
    if row != [] {
      RowCountMonotone(row[..|row| - 1], p, q);
    }
  }

  /** Counting cells under a weaker condition never gives less. */
  lemma {:induction false} CellCountMonotone(t: Table, p: string -> bool, q: string -> bool)
    requires forall c :: p(c) ==> q(c)
    ensures CellCount(t, p) <= CellCount(t, q)
    decreases |t|
  {
    if t != [] {
      CellCountMonotone(t[..|t| - 1], p, q);
      RowCountMonotone(t[|t| - 1], p, q);
    }
  }

  /** At most every cell is counted. */
  lemma {:induction false} CellCountBound(t: Table, p: string -> bool)
    ensures CellCount(t, p) <= Size(t)
    decreases |t|
  {
    if t != [] {
      CellCountBound(t[..|t| - 1], p);
    }
  }

  /** Counting cells where `f` changes something. */
  lemma {:induction false} RowCountChanged(row: Row, f: string -> string, p: string -> bool)
    requires forall c :: p(c) <==> f(c) != c
    ensures RowCount(row, p) == 0 <==> MapRow(row, f) == row
    decreases |row|
  {
    if row != [] {
      var init := row[..|row| - 1];
      RowCountChanged(init, f, p);
      assert MapRow(row, f) == MapRow(init, f) + [f(row[|row| - 1])];
      assert row == init + [row[|row| - 1]];
      if MapRow(row, f) == row {
        assert MapRow(init, f) == MapRow(row, f)[..|row| - 1];
      }
    }
  }

  /** `p` holds of no cell exactly when rewriting every cell with `f` leaves the table as it was. */
  lemma {:induction false} CellCountChanged(t: Table, f: string -> string, p: string -> bool)
    requires forall c :: p(c) <==> f(c) != c
    ensures CellCount(t, p) == 0 <==> MapCells(t, f) == t
    decreases |t|
  {
    if t != [] {
      var init := t[..|t| - 1];
      CellCountChanged(init, f, p);
      RowCountChanged(t[|t| - 1], f, p);
      assert MapCells(t, f) == MapCells(init, f) + [MapRow(t[|t| - 1], f)];
      assert t == init + [t[|t| - 1]];
      if MapCells(t, f) == t {
        assert MapCells(init, f) == MapCells(t, f)[..|t| - 1];
      }
    }
  }

  /** The nested loop over rows and cells that counts the cells satisfying `p`. */
  method CountCellsWhere(t: Table, p: string -> bool) returns (count: nat)
    ensures count == CellCount(t, p)
  {
    count := 0;
    for r := 0 to |t|
      invariant count == CellCount(t[..r], p)
    {
      var row := t[r];
      ghost var before := count;
      for c := 0 to |row|
        invariant count == before + RowCount(row[..c], p)
      {
        assert row[..c + 1][..c] == row[..c];
        if p(row[c]) {
          count := count + 1;
        }
      }
      assert row[..|row|] == row;
      assert t[..r + 1][..r] == t[..r];
    }
    assert t[..|t|] == t;
  }

  /** Writing cell `c` of a row after the ones before it, preceded by ',' unless it is the first. */
  lemma JoinMapStep(row: Row, f: string -> string, c: nat)
    requires c < |row|
    ensures Join(MapRow(row[..c + 1], f), ',')
            == (if c == 0 then "" else Join(MapRow(row[..c], f), ',') + ",") + f(row[c])
  {
    var m := MapRow(row[..c + 1], f);
    assert m[..c] == MapRow(row[..c], f);
  }

  /** Writing a whole rewritten row and its '\n' extends the rendering by that row. */
  lemma RenderMappedStep(t: Table, f: string -> string, r: nat)
    requires r < |t|
    ensures Render(MapCells(t[..r + 1], f)) == Render(MapCells(t[..r], f)) + Join(MapRow(t[r], f), ',') + "\n"
  {
    assert MapCells(t[..r + 1], f) == MapCells(t[..r], f) + [MapRow(t[r], f)];
    RenderSnoc(MapCells(t[..r], f), MapRow(t[r], f));
  }
}
