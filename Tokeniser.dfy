/**
  The tokeniser `parseCSVInternal` of the WebAssembly build: the text is read line by line
  with `std::getline`, each line cell by cell with `std::getline(…, ',')`, and a line that
  yields no cell (an empty line) is dropped. There is no quoting and no '\r' stripping.
*/
module Tokeniser {
  import opened Streams
  import opened Tables

  /** The rows produced by a sequence of lines: each line's cells, empty rows dropped. */
  function RowsOf(lines: seq<string>): Table
  {
    if lines == [] then []
    else
      var row := Getlines(lines[0], ',');
      (if row == [] then [] else [row]) + RowsOf(lines[1..])
  }

  /** The table `parseCSVInternal(data)` returns. */
  function ParseTable(data: string): Table
  {
    RowsOf(Getlines(data, '\n'))
  }

  /** `parseCSVInternal`: the nested getline loops. */
  method ParseCSVInternal(data: string) returns (result: Table)
    ensures result == ParseTable(data)
  {
    result := [];
    var pos := 0;
    assert data[pos..] == data;
    ghost var lines := Getlines(data, '\n');
    while pos < |data|
      invariant 0 <= pos <= |data| && lines == Getlines(data[pos..], '\n')
      invariant result + RowsOf(lines) == ParseTable(data)
      decreases |data| - pos
    {
      var line, next := Getline(data, pos, '\n');
      var row: Row := [];
      var lpos := 0;
      assert line[lpos..] == line;
      ghost var cells := Getlines(line, ',');
      while lpos < |line|
        invariant 0 <= lpos <= |line| && cells == Getlines(line[lpos..], ',')
        invariant row + cells == Getlines(line, ',')
        decreases |line| - lpos
      {
        var cell, lnext := Getline(line, lpos, ',');
        AppendStep(row, cell, Getlines(line[lnext..], ','), Getlines(line, ','));
        row := row + [cell];
        lpos := lnext;
        cells := Getlines(line[lpos..], ',');
      }
      assert line[lpos..] == [] && row + [] == row;
      RowsStep(result, line, Getlines(data[next..], '\n'), ParseTable(data));
      if row != [] {
        result := result + [row];
      }
      pos := next;
      lines := Getlines(data[pos..], '\n');
    }
    assert data[pos..] == [] && result + [] == result;
  }

  /** One step of the line loop: the line's row, if it has cells, joins the result. */
  lemma RowsStep(result: Table, line: string, rest: seq<string>, target: Table)
    requires result + RowsOf([line] + rest) == target
    ensures (if Getlines(line, ',') == [] then result else result + [Getlines(line, ',')]) + RowsOf(rest) == target
  {
    assert ([line] + rest)[0] == line && ([line] + rest)[1..] == rest;
    var kept: Table := if Getlines(line, ',') == [] then [] else [Getlines(line, ',')];
    assert RowsOf([line] + rest) == kept + RowsOf(rest);
    assert (result + kept) + RowsOf(rest) == result + (kept + RowsOf(rest));
    assert result + [] == result;
  }

  /** `parseCSV` of the WebAssembly build: the number of parsed rows. */
  method CountRows(data: string) returns (n: nat)
    ensures n == |ParseTable(data)|
    ensures n <= |Getlines(data, '\n')|
  {
    var parsed := ParseCSVInternal(data);
    RowsAtMostLines(Getlines(data, '\n'));
    n := |parsed|;
  }

  /** Cells of a getline piece hold no character absent from the text. */
  lemma {:induction false} GetlinesKeepsOut(s: string, d: char, c: char)
    requires c !in s
    ensures Free(Getlines(s, d), c)
    decreases |s|
  {
    if s != [] {
      var i := IndexOf(s, d);
      if i < |s| {
        GetlinesKeepsOut(s[i + 1..], d, c);
      }
    }
  }

  lemma {:induction false} RowsOfWellFormed(lines: seq<string>)
    requires Free(lines, '\n')
    ensures WellFormed(RowsOf(lines))
    decreases |lines|
  {
    if lines != [] {
      GetlinesFree(lines[0], ',');
      GetlinesKeepsOut(lines[0], ',', '\n');
      RowsOfWellFormed(lines[1..]);
    }
  }

  /** Every parsed row is non-empty and no cell holds ',' or '\n'. */
  lemma ParsedWellFormed(data: string)
    ensures WellFormed(ParseTable(data))
  {
    GetlinesFree(data, '\n');
    RowsOfWellFormed(Getlines(data, '\n'));
  }

  lemma {:induction false} RowsAtMostLines(lines: seq<string>)
    ensures |RowsOf(lines)| <= |lines|
    decreases |lines|
  {
    if lines != [] {
      RowsAtMostLines(lines[1..]);
    }
  }

  /** The non-empty lines, in order. */
  function NonBlank(lines: seq<string>): seq<string>
  {
    if lines == [] then []
    else (if lines[0] == "" then [] else [lines[0]]) + NonBlank(lines[1..])
  }

  /** Blank lines vanish: there is one row per non-empty line, and dropping the blank lines changes nothing. */
  lemma {:induction false} BlankLinesVanish(lines: seq<string>)
    ensures |RowsOf(lines)| == |NonBlank(lines)|
    ensures RowsOf(NonBlank(lines)) == RowsOf(lines)
    decreases |lines|
  {
    if lines != [] {
      BlankLinesVanish(lines[1..]);
      var rest := NonBlank(lines[1..]);
      GetlinesEmpty(lines[0], ',');
      if lines[0] != "" {
        assert NonBlank(lines) == [lines[0]] + rest;
        assert ([lines[0]] + rest)[1..] == rest;
        assert ([lines[0]] + rest)[0] == lines[0];
        assert RowsOf(NonBlank(lines)) == [Getlines(lines[0], ',')] + RowsOf(rest);
      } else {
        assert NonBlank(lines) == rest;
      }
    }
  }

  /** A leading comma gives an empty first cell. */
  lemma LeadingComma(line: string)
    ensures Getlines([','] + line, ',') == [""] + Getlines(line, ',')
  {
    GetlinesStep("", ',', line);
    assert "" + [','] + line == [','] + line;
  }

  /** Two adjacent commas give an empty cell between them. */
  lemma DoubledComma(a: string, b: string)
    requires ',' !in a
    ensures Getlines(a + ",," + b, ',') == [a, ""] + Getlines(b, ',')
  {
    var tail := [','] + b;
    assert a + ",," + b == a + [','] + tail;
    GetlinesStep(a, ',', tail);
    assert tail == "" + [','] + b;
    GetlinesStep("", ',', b);
    assert [a] + ([""] + Getlines(b, ',')) == [a, ""] + Getlines(b, ',');
  }

  /** A trailing comma adds no empty cell: the cells before it come back unchanged. */
  lemma TrailingComma(cells: seq<string>)
    requires cells != [] && Free(cells, ',')
    ensures Getlines(Join(cells, ',') + ",", ',') == cells
  {
    JoinThenSeparator(cells, ',');
    GetlinesOfTerminated(cells, ',');
  }

  /** Round trip: a well-formed table whose rows end in a non-empty cell parses back from its rendering. */
  lemma RenderParse(t: Table)
    requires WellFormed(t)
    requires forall row :: row in t ==> row[|row| - 1] != ""
    ensures ParseTable(Render(t)) == t
  {
    var lines := RowStrings(t);
    assert Free(lines, '\n') by {
      forall line | line in lines ensures '\n' !in line {
        var i :| 0 <= i < |lines| && lines[i] == line;
        JoinFree(t[i], ',', '\n');
      }
    }
    GetlinesOfTerminated(lines, '\n');
    RowsOfJoined(t);
  }

  /** The rows joined with '\n' and no final newline parse back as well. */
  lemma JoinedParse(t: Table)
    requires WellFormed(t) && t != []
    requires forall row :: row in t ==> row[|row| - 1] != ""
    ensures ParseTable(Join(RowStrings(t), '\n')) == t
  {
    var lines := RowStrings(t);
    assert Free(lines, '\n') by {
      forall line | line in lines ensures '\n' !in line {
        var i :| 0 <= i < |lines| && lines[i] == line;
        JoinFree(t[i], ',', '\n');
      }
    }
    var last := t[|t| - 1];
    assert last in t;
    assert lines[|lines| - 1] != "" by {
      JoinAsTerminated(last, ',');
    }
    GetlinesOfJoin(lines, '\n');
    RowsOfJoined(t);
  }

  lemma {:induction false} RowsOfJoined(t: Table)
    requires WellFormed(t)
    requires forall row :: row in t ==> row[|row| - 1] != ""
    ensures RowsOf(RowStrings(t)) == t
    decreases |t|
  {
    if t != [] {
      var row := t[0];
      assert row in t;
      GetlinesOfJoin(row, ',');
      assert RowStrings(t)[1..] == RowStrings(t[1..]);
      assert forall r :: r in t[1..] ==> r in t;
      RowsOfJoined(t[1..]);
    }
  }

  /** A line without a newline is the only line of its text. */
  lemma SingleLine(line: string)
    requires line != [] && '\n' !in line
    ensures Getlines(line, '\n') == [line]
  {
    IndexOfFree(line, '\n');
  }

  /** A trailing comma adds no cell. */
  lemma ExampleTrailingComma()
    ensures ParseTable("a,") == [["a"]]
  {
    SingleLine("a,");
    GetlinesStep("a", ',', "");
    assert "a" + [','] + "" == "a,";
    assert Getlines("a,", ',') == ["a"];
    assert RowsOf(["a,"]) == [["a"]] + RowsOf([]);
  }

  /** A leading comma gives an empty first cell. */
  lemma ExampleLeadingComma()
    ensures ParseTable(",a") == [["", "a"]]
  {
    SingleLine(",a");
    LeadingComma("a");
    IndexOfFree("a", ',');
    assert [','] + "a" == ",a";
    assert Getlines(",a", ',') == ["", "a"];
    assert RowsOf([",a"]) == [["", "a"]] + RowsOf([]);
  }

  /** Doubled commas give an empty cell. */
  lemma ExampleDoubledComma()
    ensures ParseTable("a,,b") == [["a", "", "b"]]
  {
    SingleLine("a,,b");
    DoubledComma("a", "b");
    IndexOfFree("b", ',');
    assert "a" + ",," + "b" == "a,,b";
    assert Getlines("a,,b", ',') == ["a", "", "b"];
    assert RowsOf(["a,,b"]) == [["a", "", "b"]] + RowsOf([]);
  }

  /** A carriage return stays inside the last cell of its line. */
  lemma ExampleCarriageReturn()
    ensures ParseTable("a,b\r\n") == [["a", "b\r"]]
  {
    GetlinesStep("a,b\r", '\n', "");
    assert "a,b\r" + ['\n'] + "" == "a,b\r\n";
    assert Getlines("a,b\r\n", '\n') == ["a,b\r"];
    GetlinesStep("a", ',', "b\r");
    IndexOfFree("b\r", ',');
    assert "a" + [','] + "b\r" == "a,b\r";
    assert Getlines("a,b\r", ',') == ["a", "b\r"];
    assert RowsOf(["a,b\r"]) == [["a", "b\r"]] + RowsOf([]);
  }

  /** The first line's row, if it has cells, followed by the rows of the other lines. */
  lemma RowsOfCons(line: string, rest: seq<string>)
    ensures RowsOf([line] + rest) == (if Getlines(line, ',') == [] then [] else [Getlines(line, ',')]) + RowsOf(rest)
  {
    assert ([line] + rest)[0] == line && ([line] + rest)[1..] == rest;
  }

  lemma BlankLineSplit(data: string)
    requires data == "x\n\ny\n"
    ensures Getlines(data, '\n') == ["x", "", "y"]
  {
    var last, blank := data[3..], data[2..];
    assert last == "y" + ['\n'] + "";
    GetlinesStep("y", '\n', "");
    assert blank == "" + ['\n'] + last;
    GetlinesStep("", '\n', last);
    assert data == "x" + ['\n'] + blank;
    GetlinesStep("x", '\n', blank);
    assert ["x"] + ([""] + (["y"] + [])) == ["x", "", "y"];
  }

  /** A blank line yields no row. */
  lemma ExampleBlankLine(data: string)
    requires data == "x\n\ny\n"
    ensures ParseTable(data) == [["x"], ["y"]]
  {
    BlankLineSplit(data);
    IndexOfFree("x", ',');
    IndexOfFree("y", ',');
    assert Getlines("", ',') == [];
    RowsOfCons("y", []);
    assert [""] + ["y"] == ["", "y"];
    RowsOfCons("", ["y"]);
    assert ["x"] + ["", "y"] == ["x", "", "y"];
    RowsOfCons("x", ["", "y"]);
  }
}
