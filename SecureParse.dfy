/**
  `parseCSVSecure`: the hardened tokeniser. The text must first pass `isValidCSVData`;
  then at most the first 10000 lines are read, each line is cut at ',' with
  `find`/`substr`, a row keeps at most its first 1000 cells, and empty rows are dropped.
*/
module SecureParse {
  import opened Wrappers
  import opened Streams
  import opened Tables
  import opened Tokeniser
  import opened SecureChecks

  const InvalidData := "Invalid CSV data detected"

  /** The first `n` elements of `xs`, or all of them when there are fewer. */
  function Take<T>(xs: seq<T>, n: nat): (ys: seq<T>)
    ensures |ys| == if |xs| <= n then |xs| else n
    ensures |xs| <= n ==> ys == xs
  {
    if |xs| <= n then xs else xs[..n]
  }

  /** What `Take` keeps is a prefix. */
  lemma TakePrefix<T>(xs: seq<T>, n: nat)
    ensures Take(xs, n) <= xs
  {
  }

  /** The cells the find loop collects from one line. */
  function CappedRow(line: string): Row
  {
    Take(Getlines(line, ','), MaxCells)
  }

  /** The rows built from the first `budget` lines; a line without cells adds no row. */
  function CappedRows(lines: seq<string>, budget: nat): Table
    decreases |lines|
  {
    if lines == [] || budget == 0 then []
    else
      var row := CappedRow(lines[0]);
      (if row == [] then [] else [row]) + CappedRows(lines[1..], budget - 1)
  }

  /** What `parseCSVSecure(data)` returns, or the exception it throws. */
  ghost function SecureTable(data: string): Result<Table>
  {
    if !ValidCSV(data) then Failure(InvalidData)
    else Success(CappedRows(Getlines(data, '\n'), MaxLines))
  }

  /** `parseCSVSecure`: validation, then the line loop with its counter. */
  method ParseCSVSecure(data: string) returns (r: Result<Table>)
    ensures r == SecureTable(data)
  {
    var valid := IsValidCSVData(data);
    if !valid {
      return Failure(InvalidData);
    }
    var rows := ReadLines(data);
    return Success(rows);
  }

  /** The line loop of `parseCSVSecure`: `lineCount` stops it after the 10000th line. */
  method ReadLines(data: string) returns (result: Table)
    ensures result == CappedRows(Getlines(data, '\n'), MaxLines)
  {
    result := [];
    var pos := 0;
    var lineCount := 0;
    assert data[pos..] == data;
    while pos < |data|
      invariant 0 <= pos <= |data| && lineCount <= MaxLines
      invariant result + CappedRows(Getlines(data[pos..], '\n'), MaxLines - lineCount)
                == CappedRows(Getlines(data, '\n'), MaxLines)
      decreases |data| - pos
    {
      var line, next := Getline(data, pos, '\n');
      ghost var budget := MaxLines - lineCount;
      lineCount := lineCount + 1;
      if lineCount > MaxLines {
        assert budget == 0 && result + [] == result;
        break;
      }
      var row := SplitLine(line);
      LineStep(result, line, Getlines(data[next..], '\n'), budget, CappedRows(Getlines(data, '\n'), MaxLines));
      if row != [] {
        result := result + [row];
      }
      pos := next;
    }
    if pos == |data| {
      assert data[pos..] == [];
    }
  }

  /** One step of the line loop: the line's row, if it has cells, joins the result. */
  lemma LineStep(result: Table, line: string, rest: seq<string>, budget: nat, target: Table)
    requires budget > 0
    requires result + CappedRows([line] + rest, budget) == target
    ensures (if CappedRow(line) == [] then result else result + [CappedRow(line)]) + CappedRows(rest, budget - 1) == target
  {
    assert ([line] + rest)[0] == line && ([line] + rest)[1..] == rest;
    var kept: Table := if CappedRow(line) == [] then [] else [CappedRow(line)];
    assert CappedRows([line] + rest, budget) == kept + CappedRows(rest, budget - 1);
    assert (result + kept) + CappedRows(rest, budget - 1) == result + (kept + CappedRows(rest, budget - 1));
    assert result + [] == result;
  }

  /** One step of the find loop: the piece before the comma at `p` is the next getline piece. */
  lemma CommaStep(line: string, prev: nat, p: nat)
    requires prev <= p < |line| && p == FindFrom(line, ',', prev)
    ensures Getlines(line[prev..], ',') == [line[prev..p]] + Getlines(line[p + 1..], ',')
  {
    assert line[prev..] == line[prev..p] + [','] + line[p + 1..];
    GetlinesStep(line[prev..p], ',', line[p + 1..]);
  }

  /** The end of the find loop: no comma is left after `prev`. */
  lemma LastPiece(line: string, prev: nat)
    requires prev <= |line| && FindFrom(line, ',', prev) == |line|
    ensures Getlines(line[prev..], ',') == if prev < |line| then [line[prev..]] else []
  {
    if prev < |line| {
      IndexOfFree(line[prev..], ',');
    }
  }

  lemma TakeCons<T>(x: T, xs: seq<T>, n: nat)
    requires n > 0
    ensures Take([x] + xs, n) == [x] + Take(xs, n - 1)
  {
    if |xs| > n - 1 {
      assert ([x] + xs)[..n] == [x] + xs[..n - 1];
    }
  }

  /** Taking one more element into the row keeps the row and what is left to take complete. */
  lemma TakeStep<T>(row: seq<T>, x: T, rest: seq<T>, budget: nat, target: seq<T>)
    requires budget > 0 && row + Take([x] + rest, budget) == target
    ensures (row + [x]) + Take(rest, budget - 1) == target
  {
    TakeCons(x, rest, budget);
    assert (row + [x]) + Take(rest, budget - 1) == row + ([x] + Take(rest, budget - 1));
  }

  /** The `find`/`substr` loop with the cell counter and the tail after the last comma. */
  method SplitLine(line: string) returns (row: Row)
    ensures row == CappedRow(line)
  {
    row := [];
    var cellCount := 0;
    var prev := 0;
    var pos := FindFrom(line, ',', prev);
    assert line[prev..] == line;
    ghost var rest := Getlines(line, ',');
    while pos < |line|
      invariant prev <= pos <= |line| && pos == FindFrom(line, ',', prev)
      invariant cellCount == |row| <= MaxCells && rest == Getlines(line[prev..], ',')
      invariant row + Take(rest, MaxCells - cellCount) == CappedRow(line)
      decreases |line| - prev
    {
      if cellCount + 1 > MaxCells {
        cellCount := cellCount + 1;
        assert row + [] == row;
        return;
      }
      CommaStep(line, prev, pos);
      TakeStep(row, line[prev..pos], Getlines(line[pos + 1..], ','), MaxCells - cellCount, CappedRow(line));
      row, cellCount, prev := row + [line[prev..pos]], cellCount + 1, pos + 1;
      rest := Getlines(line[prev..], ',');
      pos := FindFrom(line, ',', prev);
    }
    LastPiece(line, prev);
    if prev < |line| {
      cellCount := cellCount + 1;
      if cellCount <= MaxCells {
        TakeStep(row, line[prev..], [], MaxCells - (cellCount - 1), CappedRow(line));
        row := row + [line[prev..]];
      }
    }
    assert row + [] == row;
  }

  // ---------------------------------------------------------------------------
  // Properties
  // ---------------------------------------------------------------------------

  /** The text is refused exactly when `isValidCSVData` refuses it. */
  lemma SecureRefusal(data: string)
    ensures SecureTable(data).Failure? <==> !ValidCSV(data)
    ensures SecureTable(data).Failure? ==> SecureTable(data).message == InvalidData
  {
  }

  lemma {:induction false} CappedRowsShape(lines: seq<string>, budget: nat)
    requires Free(lines, '\n')
    ensures |CappedRows(lines, budget)| <= budget && |CappedRows(lines, budget)| <= |lines|
    ensures WellFormed(CappedRows(lines, budget))
    ensures forall row :: row in CappedRows(lines, budget) ==> |row| <= MaxCells
    decreases |lines|
  {
    if lines != [] && budget > 0 {
      CappedRowsShape(lines[1..], budget - 1);
      GetlinesFree(lines[0], ',');
      GetlinesKeepsOut(lines[0], ',', '\n');
      var cells := Getlines(lines[0], ',');
      var row := CappedRow(lines[0]);
      TakePrefix(cells, MaxCells);
      assert forall k :: 0 <= k < |row| ==> row[k] == cells[k];
    }
  }

  /**
    An accepted text gives at most 10000 rows, each with 1 to 1000 cells, and no cell
    holds ',' or '\n'.
  */
  lemma SecureBounds(data: string)
    requires SecureTable(data).Success?
    ensures |SecureTable(data).value| <= MaxLines
    ensures WellFormed(SecureTable(data).value)
    ensures forall row :: row in SecureTable(data).value ==> 1 <= |row| <= MaxCells
  {
    GetlinesFree(data, '\n');
    CappedRowsShape(Getlines(data, '\n'), MaxLines);
  }

  lemma {:induction false} CappedRowsUncapped(lines: seq<string>, budget: nat)
    requires |lines| <= budget
    requires forall k :: 0 <= k < |lines| ==> |Getlines(lines[k], ',')| <= MaxCells
    ensures CappedRows(lines, budget) == RowsOf(lines)
    decreases |lines|
  {
    if lines != [] {
      assert forall k :: 0 <= k < |lines[1..]| ==> lines[1..][k] == lines[k + 1];
      CappedRowsUncapped(lines[1..], budget - 1);
    }
  }

  /**
    Within the limits the hardened parser agrees with `parseCSVInternal`: an accepted
    text of at most 10000 lines with at most 1000 cells per line parses to the same table.
  */
  lemma SecureAgrees(data: string)
    requires ValidCSV(data)
    requires |Getlines(data, '\n')| <= MaxLines
    requires forall line :: line in Getlines(data, '\n') ==> |Getlines(line, ',')| <= MaxCells
    ensures SecureTable(data) == Success(ParseTable(data))
  {
    CappedRowsUncapped(Getlines(data, '\n'), MaxLines);
  }

  lemma {:induction false} CappedRowsTruncate(lines: seq<string>, budget: nat)
    requires budget <= |lines|
    ensures CappedRows(lines, budget) == CappedRows(lines[..budget], budget)
    decreases budget
  {
    if budget > 0 {
      assert lines[..budget][1..] == lines[1..][..budget - 1];
      CappedRowsTruncate(lines[1..], budget - 1);
    }
  }

  /** Lines after the 10000th are never read: what follows them does not change the result. */
  lemma LaterLinesIgnored(lines: seq<string>, more: seq<string>)
    requires |lines| == MaxLines
    ensures CappedRows(lines + more, MaxLines) == CappedRows(lines, MaxLines)
  {
    CappedRowsTruncate(lines + more, MaxLines);
    CappedRowsTruncate(lines, MaxLines);
    assert (lines + more)[..MaxLines] == lines[..MaxLines];
  }

  /** A row is cut, never altered: the kept cells are the first cells of the line. */
  lemma CappedRowPrefix(line: string)
    ensures CappedRow(line) <= Getlines(line, ',')
    ensures |CappedRow(line)| == if |Getlines(line, ',')| <= MaxCells then |Getlines(line, ',')| else MaxCells
  {
    TakePrefix(Getlines(line, ','), MaxCells);
  }
}
