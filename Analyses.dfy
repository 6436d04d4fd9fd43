/**
  The table analyses and string-returning operators of the WebAssembly build that
  work cell by cell or row by row: missing, whitespace and null-token counts,
  exact-duplicate detection and removal, and the trim, case and null rewrites.
  Every one of them parses its input with `parseCSVInternal` first.
*/
module Analyses {
  import opened Streams
  import opened Tables
  import opened Tokeniser
  import opened Cells
  import opened Distinct

  /** `detectMissing`: the number of empty cells. */
  method DetectMissing(data: string) returns (count: nat)
    ensures count == CellCount(ParseTable(data), IsEmptyCell)
  {
    var parsed := ParseCSVInternal(data);
    count := CountCellsWhere(parsed, IsEmptyCell);
  }

  /** `detectNullValues`: the number of cells that are empty or a null token. */
  method DetectNullValues(data: string) returns (count: nat)
    ensures count == CellCount(ParseTable(data), IsNullCell)
  {
    var parsed := ParseCSVInternal(data);
    count := CountCellsWhere(parsed, IsNullCell);
  }

  /** `detectWhitespace`: the number of non-empty cells starting or ending with a space or a tab. */
  method DetectWhitespace(data: string) returns (count: nat)
    ensures count == CellCount(ParseTable(data), Padded)
  {
    var parsed := ParseCSVInternal(data);
    count := CountCellsWhere(parsed, Padded);
  }

  /** Every missing cell is a null cell, so `detectMissing` never exceeds `detectNullValues`. */
  lemma MissingAtMostNull(t: Table)
    ensures CellCount(t, IsEmptyCell) <= CellCount(t, IsNullCell)
    ensures CellCount(t, IsNullCell) <= Size(t)
  {
    CellCountMonotone(t, IsEmptyCell, IsNullCell);
    CellCountBound(t, IsNullCell);
  }

  /** `detectWhitespace` counts exactly the cells the trim would change: it is 0 iff trimming leaves the table alone. */
  lemma WhitespaceCountsTrimmedCells(t: Table)
    ensures CellCount(t, Padded) == 0 <==> MapCells(t, Trim) == t
  {
    forall c ensures Padded(c) <==> Trim(c) != c {
      TrimChangesPadded(c);
    }
    CellCountChanged(t, Trim, Padded);
  }

  /** `detectNullValues` minus `detectMissing` counts exactly the cells the null rewrite changes. */
  lemma NullTokensCountRewrittenCells(t: Table)
    ensures CellCount(t, c => c in NullTokens) == 0 <==> MapCells(t, StandardiseNull) == t
  {
    forall c ensures (c in NullTokens) <==> StandardiseNull(c) != c {
      StandardiseNullSpec(c);
    }
    CellCountChanged(t, StandardiseNull, c => c in NullTokens);
  }

  /** After the trim no cell starts or ends with a blank, and trimming again changes nothing. */
  lemma TrimmedTable(t: Table)
    ensures forall row, c :: row in MapCells(t, Trim) && c in row ==> !Padded(c)
    ensures MapCells(MapCells(t, Trim), Trim) == MapCells(t, Trim)
  {
    forall c ensures Trim(Trim(c)) == Trim(c) {
      TrimIdempotent(c);
    }
    MapCellsIdempotent(t, Trim);
    forall row, c | row in MapCells(t, Trim) && c in row
      ensures !Padded(c)
    {
      var i :| 0 <= i < |t| && MapCells(t, Trim)[i] == row;
      var j :| 0 <= j < |row| && row[j] == c;
      TrimSpec(t[i][j]);
    }
  }

  /** The case and null rewrites are idempotent on whole tables. */
  lemma RewritesIdempotent(t: Table)
    ensures MapCells(MapCells(t, Upper), Upper) == MapCells(t, Upper)
    ensures MapCells(MapCells(t, Lower), Lower) == MapCells(t, Lower)
    ensures MapCells(MapCells(t, StandardiseNull), StandardiseNull) == MapCells(t, StandardiseNull)
  {
    forall c ensures Upper(Upper(c)) == Upper(c) && Lower(Lower(c)) == Lower(c) {
      UpperSpec(c);
      LowerSpec(c);
    }
    forall c ensures StandardiseNull(StandardiseNull(c)) == StandardiseNull(c) {
      StandardiseNullSpec(c);
    }
    MapCellsIdempotent(t, Upper);
    MapCellsIdempotent(t, Lower);
    MapCellsIdempotent(t, StandardiseNull);
  }

  /** `trimWhitespaceString`: every cell trimmed, the table written back. */
  method TrimWhitespaceString(data: string) returns (out: string)
    ensures out == Render(MapCells(ParseTable(data), Trim))
  {
    var parsed := ParseCSVInternal(data);
    out := "";
    for r := 0 to |parsed|
      invariant out == Render(MapCells(parsed[..r], Trim))
    {
      var row := parsed[r];
      ghost var before := out;
      for i := 0 to |row|
        invariant out == before + Join(MapRow(row[..i], Trim), ',')
      {
        var cell := Trim(row[i]);
        JoinMapStep(row, Trim, i);
        if i > 0 {
          out := out + ",";
        }
        out := out + cell;
      }
      assert row[..|row|] == row;
      out := out + "\n";
      RenderMappedStep(parsed, Trim, r);
      assert parsed[..r + 1][..r] == parsed[..r];
    }
    assert parsed[..|parsed|] == parsed;
  }

  /** `toUpperCaseString`: every cell upper-cased (ASCII), the table written back. */
  method ToUpperCaseString(data: string) returns (out: string)
    ensures out == Render(MapCells(ParseTable(data), Upper))
  {
    var parsed := ParseCSVInternal(data);
    out := "";
    for r := 0 to |parsed|
      invariant out == Render(MapCells(parsed[..r], Upper))
    {
      var row := parsed[r];
      ghost var before := out;
      for i := 0 to |row|
        invariant out == before + Join(MapRow(row[..i], Upper), ',')
      {
        var cell := ToUpperCell(row[i]);
        JoinMapStep(row, Upper, i);
        if i > 0 {
          out := out + ",";
        }
        out := out + cell;
      }
      assert row[..|row|] == row;
      out := out + "\n";
      RenderMappedStep(parsed, Upper, r);
      assert parsed[..r + 1][..r] == parsed[..r];
    }
    assert parsed[..|parsed|] == parsed;
  }

  /** `toLowerCaseString`: every cell lower-cased (ASCII), the table written back. */
  method ToLowerCaseString(data: string) returns (out: string)
    ensures out == Render(MapCells(ParseTable(data), Lower))
  {
    var parsed := ParseCSVInternal(data);
    out := "";
    for r := 0 to |parsed|
      invariant out == Render(MapCells(parsed[..r], Lower))
    {
      var row := parsed[r];
      ghost var before := out;
      for i := 0 to |row|
        invariant out == before + Join(MapRow(row[..i], Lower), ',')
      {
        var cell := ToLowerCell(row[i]);
        JoinMapStep(row, Lower, i);
        if i > 0 {
          out := out + ",";
        }
        out := out + cell;
      }
      assert row[..|row|] == row;
      out := out + "\n";
      RenderMappedStep(parsed, Lower, r);
      assert parsed[..r + 1][..r] == parsed[..r];
    }
    assert parsed[..|parsed|] == parsed;
  }

  /** `standardiseNullValueString`: every null cell replaced by "", the table written back. */
  method StandardiseNullValueString(data: string) returns (out: string)
    ensures out == Render(MapCells(ParseTable(data), StandardiseNull))
  {
    var parsed := ParseCSVInternal(data);
    out := "";
    for r := 0 to |parsed|
      invariant out == Render(MapCells(parsed[..r], StandardiseNull))
    {
      var row := parsed[r];
      ghost var before := out;
      for i := 0 to |row|
        invariant out == before + Join(MapRow(row[..i], StandardiseNull), ',')
      {
        var cell := row[i];
        if IsNullCell(cell) {
          cell := "";
        }
        JoinMapStep(row, StandardiseNull, i);
        if i > 0 {
          out := out + ",";
        }
        out := out + cell;
      }
      assert row[..|row|] == row;
      out := out + "\n";
      RenderMappedStep(parsed, StandardiseNull, r);
      assert parsed[..r + 1][..r] == parsed[..r];
    }
    assert parsed[..|parsed|] == parsed;
  }

  /** The text `rowStr` of a row. */
  function RowKey(row: Row): string
  {
    Join(row, ',')
  }

  /** Two parsed rows with the same text are the same row. */
  lemma RowKeyInjective(data: string)
    ensures InjectiveOn(RowKey, ParseTable(data))
    ensures RowStrings(ParseTable(data)) == Map(ParseTable(data), RowKey)
  {
    var t := ParseTable(data);
    ParsedWellFormed(data);
    forall a, b | a in t && b in t && RowKey(a) == RowKey(b)
      ensures a == b
    {
      JoinInjective(a, b, ',');
    }
  }

  /** The rendering of rows is their texts, each followed by '\\n'. */
  lemma RenderByKeys(t: Table)
    ensures Render(t) == Terminated(Map(t, RowKey), '\n')
  {
    assert RowStrings(t) == Map(t, RowKey);
  }

  /** Working on the row texts gives the same duplicates, distinct rows and output as working on the rows. */
  lemma KeysAgree(data: string)
    ensures var t := ParseTable(data);
            && DupCount(Map(t, RowKey)) == DupCount(t)
            && |Dedup(Map(t, RowKey))| == |Dedup(t)|
            && Render(Dedup(t)) == Terminated(Dedup(Map(t, RowKey)), '\n')
  {
    var t := ParseTable(data);
    RowKeyInjective(data);
    DedupByKey(t, RowKey);
    RenderByKeys(Dedup(t));
  }

  /** `detectDuplicates`: the number of rows, header included, equal to an earlier row. */
  method DetectDuplicates(data: string) returns (count: nat)
    ensures count == DupCount(ParseTable(data))
  {
    var parsed := ParseCSVInternal(data);
    ghost var keys := Map(parsed, RowKey);
    var seen: set<string> := {};
    count := 0;
    for i := 0 to |parsed|
      invariant count == DupCount(keys[..i])
      invariant forall k :: k in seen <==> k in keys[..i]
    {
      var rowStr := JoinRow(parsed[i], ',');
      assert rowStr == keys[i];
      PrefixStep(keys, i);
      if rowStr in seen {
        count := count + 1;
      } else {
        seen := seen + {rowStr};
      }
    }
    assert keys[..|parsed|] == keys;
    KeysAgree(data);
  }

  /** `cleanData`: the number of distinct rows. */
  method CleanData(data: string) returns (cleanedCount: nat)
    ensures cleanedCount == |Dedup(ParseTable(data))|
  {
    var parsed := ParseCSVInternal(data);
    ghost var keys := Map(parsed, RowKey);
    var seen: set<string> := {};
    cleanedCount := 0;
    for i := 0 to |parsed|
      invariant cleanedCount == |Dedup(keys[..i])|
      invariant forall k :: k in seen <==> k in keys[..i]
    {
      var rowStr := JoinRow(parsed[i], ',');
      assert rowStr == keys[i];
      PrefixStep(keys, i);
      if rowStr !in seen {
        seen := seen + {rowStr};
        cleanedCount := cleanedCount + 1;
      }
    }
    assert keys[..|parsed|] == keys;
    KeysAgree(data);
  }

  /** `cleanDataString`: each distinct row once, in order of first occurrence, written back. */
  method CleanDataString(data: string) returns (out: string)
    ensures out == Render(Dedup(ParseTable(data)))
  {
    var parsed := ParseCSVInternal(data);
    ghost var keys := Map(parsed, RowKey);
    var seen: set<string> := {};
    out := "";
    for i := 0 to |parsed|
      invariant out == Terminated(Dedup(keys[..i]), '\n')
      invariant forall k :: k in seen <==> k in keys[..i]
    {
      var rowStr := JoinRow(parsed[i], ',');
      assert rowStr == keys[i];
      PrefixStep(keys, i);
      if rowStr !in seen {
        seen := seen + {rowStr};
        TerminatedSnoc(Dedup(keys[..i]), rowStr, '\n');
        out := out + rowStr + "\n";
      }
    }
    assert keys[..|parsed|] == keys;
    KeysAgree(data);
  }

  /** `detectDuplicates` and `cleanData` together account for every parsed row. */
  lemma DuplicatesPlusCleaned(data: string)
    ensures DupCount(ParseTable(data)) + |Dedup(ParseTable(data))| == |ParseTable(data)|
  {
    DedupPlusDuplicates(ParseTable(data));
  }

  /**
    What `cleanDataString` keeps: every parsed row occurs among the kept rows, each kept
    row exactly once, in the order of first occurrence, and nothing else.
  */
  lemma CleanedRows(data: string)
    ensures forall row :: row in Dedup(ParseTable(data)) <==> row in ParseTable(data)
    ensures forall i, j :: 0 <= i < j < |Dedup(ParseTable(data))| ==>
              Dedup(ParseTable(data))[i] != Dedup(ParseTable(data))[j]
    ensures forall i, j :: 0 <= i < j < |Dedup(ParseTable(data))| ==>
              FirstIndex(ParseTable(data), Dedup(ParseTable(data))[i])
              < FirstIndex(ParseTable(data), Dedup(ParseTable(data))[j])
  {
    var t := ParseTable(data);
    DedupElements(t);
    DedupDistinct(t);
    DedupOrder(t);
  }

  /** The header row takes part: a table of two identical rows has one duplicate. */
  lemma HeaderCounts(row: Row)
    ensures DupCount([row, row]) == 1 && Dedup([row, row]) == [row]
  {
    var two := [row, row];
    assert two[..|two| - 1] == [row];
    assert [row][..0] == [];
    assert Dedup([row]) == [row] && DupCount([row]) == 0;
    assert two[|two| - 1] in [row];
  }
}
