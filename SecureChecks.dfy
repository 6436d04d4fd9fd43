/**
  The input checks of the hardened build: `isValidCSVData` (no spreadsheet formula after
  the first '=', no line over 10 000 characters), `isNumericSecure` and the loose date
  shape `isDateFormatSecure`.
*/
module SecureChecks {
  import opened Streams
  import opened Cells

  // ---------------------------------------------------------------------------
  // isValidCSVData
  // ---------------------------------------------------------------------------

  /** The longest line `isValidCSVData` accepts. */
  const MaxLineLength := 10000
  /** Lines `parseCSVSecure` reads before it stops. */
  const MaxLines: nat := 10000
  /** Cells `parseCSVSecure` keeps per line. */
  const MaxCells: nat := 1000

  /** The function names the formula check refuses. */
  const FormulaNames: set<string> := {"SUM", "AVG", "MAX", "MIN"}

  /** `data.find(p) == 0`. */
  predicate StartsWith(s: string, p: string)
  {
    |p| <= |s| && s[..|p|] == p
  }

  /**
    The guard in front of the formula check. Its third operand passes the `bool`
    `"=@" == 0`, which is false, to `find`: that searches for '\0', and the position found
    is read as a truth value, true for npos and for every position except 0.
  */
  predicate FormulaGuard(data: string)
  {
    || StartsWith(data, "=+")
    || StartsWith(data, "=-")
    || (IndexOf(data, '\0') == |data| || IndexOf(data, '\0') != 0)
    || IndexOf(data, '=') < |data|
  }

  /** More than three characters follow the first '=' and the first three, upper-cased, name a function. */
  predicate FormulaAfterFirstEquals(data: string)
  {
    var pos := IndexOf(data, '=');
    pos < |data| && |data| - (pos + 1) > 3 && Upper(data[pos + 1..pos + 4]) in FormulaNames
  }

  /** Every '\n'-separated line is at most `MaxLineLength` characters long. */
  ghost predicate LinesWithinLimit(data: string)
  {
    forall line :: line in Getlines(data, '\n') ==> |line| <= MaxLineLength
  }

  /** What `isValidCSVData` accepts. */
  ghost predicate ValidCSV(data: string)
  {
    !FormulaAfterFirstEquals(data) && LinesWithinLimit(data)
  }

  /** `isValidCSVData`: the guarded formula check, then the line-length scan. */
  method IsValidCSVData(data: string) returns (valid: bool)
    ensures valid == ValidCSV(data)
  {
    var formula := FormulaCheck(data);
    if formula {
      return false;
    }
    valid := LineLengthScan(data);
  }

  /** The formula check of `isValidCSVData`: true when it rejects the text. */
  method FormulaCheck(data: string) returns (reject: bool)
    ensures reject == FormulaAfterFirstEquals(data)
  {
    reject := false;
    if StartsWith(data, "=+") || StartsWith(data, "=-")
       || (IndexOf(data, '\0') == |data| || IndexOf(data, '\0') != 0)
       || IndexOf(data, '=') < |data|
    {
      var pos := IndexOf(data, '=');
      if pos < |data| {
        var potentialFormula := data[pos + 1..];
        if |potentialFormula| > 3 {
          var prefix := ToUpperCell(potentialFormula[..3]);
          assert potentialFormula[..3] == data[pos + 1..pos + 4];
          reject := prefix == "SUM" || prefix == "AVG" || prefix == "MAX" || prefix == "MIN";
        }
      }
    }
  }

  /** The getline loop of the check: true when no line is longer than the limit. */
  method LineLengthScan(data: string) returns (ok: bool)
    ensures ok == LinesWithinLimit(data)
  {
    var pos := 0;
    ghost var seen: seq<string> := [];
    assert data[pos..] == data;
    while pos < |data|
      invariant 0 <= pos <= |data|
      invariant seen + Getlines(data[pos..], '\n') == Getlines(data, '\n')
      invariant forall line :: line in seen ==> |line| <= MaxLineLength
      decreases |data| - pos
    {
      var line, next := Getline(data, pos, '\n');
      AppendStep(seen, line, Getlines(data[next..], '\n'), Getlines(data, '\n'));
      if |line| > MaxLineLength {
        return false;
      }
      seen := seen + [line];
      pos := next;
    }
    assert data[pos..] == [];
    return true;
  }

  /** The guard is false only for text that starts with '\0' and holds no '='; the check behind it then finds nothing. */
  lemma FormulaGuardFalse(data: string)
    ensures !FormulaGuard(data) <==> |data| > 0 && data[0] == '\0' && '=' !in data
    ensures FormulaAfterFirstEquals(data) ==> FormulaGuard(data)
  {
    IndexOfSpec(data, '=');
    if '=' in data {
      var k :| 0 <= k < |data| && data[k] == '=';
      assert IndexOf(data, '=') <= k;
    }
  }

  /** A getline piece covers any run of non-separator characters inside the text. */
  lemma {:induction false} GetlinesCoverRun(s: string, d: char, i: nat, j: nat)
    requires i < j <= |s|
    requires forall k :: i <= k < j ==> s[k] != d
    ensures exists piece :: piece in Getlines(s, d) && |piece| >= j - i
    decreases |s|
  {
    var idx := IndexOf(s, d);
    IndexOfSpec(s, d);
    if idx == |s| {
      assert Getlines(s, d) == [s];
    } else if j <= idx {
      assert s[..idx] in Getlines(s, d);
    } else {
      assert idx < i;
      var rest := s[idx + 1..];
      GetlinesCoverRun(rest, d, i - idx - 1, j - idx - 1);
      var piece :| piece in Getlines(rest, d) && |piece| >= j - i;
      assert Getlines(s, d) == [s[..idx]] + Getlines(rest, d);
      assert piece in Getlines(s, d);
    }
  }

  /** Any run of more than 10 000 characters without a '\n' makes the text invalid. */
  lemma LongRunRejected(data: string, i: nat)
    requires i + MaxLineLength < |data|
    requires forall k :: i <= k <= i + MaxLineLength ==> data[k] != '\n'
    ensures !ValidCSV(data)
  {
    GetlinesCoverRun(data, '\n', i, i + MaxLineLength + 1);
  }

  /** Text without a newline is one line. */
  lemma OneLine(data: string)
    requires data != [] && '\n' !in data
    ensures Getlines(data, '\n') == [data]
  {
    IndexOfFree(data, '\n');
  }

  /** A lower-case function name after the first '=' is refused. */
  lemma LowerCaseFormula(data: string)
    requires data == "=sum(A1)"
    ensures !ValidCSV(data)
  {
    IndexOfAt(data, '=', 0);
    var name := data[1..4];
    assert name == "sum";
    var up := Upper(name);
    assert up[0] == 'S' && up[1] == 'U' && up[2] == 'M';
    assert up == "SUM";
  }

  /** Exactly three characters after the '=' are not enough to be refused. */
  lemma ShortFormula(data: string)
    requires data == "=SUM"
    ensures ValidCSV(data)
  {
    IndexOfAt(data, '=', 0);
    OneLine(data);
  }

  /** Only the first '=' is looked at: a formula after a later '=' passes. */
  lemma LaterFormula(data: string)
    requires data == "x=1,=SUM(A1)"
    ensures ValidCSV(data)
  {
    IndexOfAt(data, '=', 1);
    var name := data[2..5];
    assert name[0] == data[2] == '1';
    var up := Upper(name);
    assert up[0] == '1';
    assert up !in FormulaNames;
    OneLine(data);
  }

  // ---------------------------------------------------------------------------
  // isNumericSecure
  // ---------------------------------------------------------------------------

  /** `isNumericSecure`: the same grammar as `isNumeric`, scanned with its own `hasDecimal` flag. */
  method IsNumericSecure(str: string) returns (r: bool)
    ensures r == NumericLiteral(str)
  {
    if |str| == 0 {
      return false;
    }
    var start := if str[0] == '-' || str[0] == '+' then 1 else 0;
    if start >= |str| {
      return false;
    }
    var hasDecimal := false;
    for i := start to |str|
      invariant forall k :: start <= k < i ==> IsDigit(str[k]) || str[k] == '.'
      invariant CountChar(str[start..i], '.') == if hasDecimal then 1 else 0
    {
      assert str[start..i + 1][..i - start] == str[start..i];
      if str[i] == '.' {
        if hasDecimal {
          CountCharPrefix(str[start..], '.', i + 1 - start);
          assert str[start..][..i + 1 - start] == str[start..i + 1];
          return false;
        }
        hasDecimal := true;
      } else if str[i] < '0' || str[i] > '9' {
        return false;
      }
    }
    assert str[start..|str|] == str[start..];
    return true;
  }

  // ---------------------------------------------------------------------------
  // isDateFormatSecure
  // ---------------------------------------------------------------------------

  predicate IsDateSeparator(c: char)
  {
    c == '/' || c == '-' || c == '.'
  }

  function DigitCount(s: string): (n: nat)
    ensures n <= |s|
  {
    if s == [] then 0 else DigitCount(s[..|s| - 1]) + (if IsDigit(s[|s| - 1]) then 1 else 0)
  }

  function SeparatorCount(s: string): (n: nat)
    ensures n <= |s|
  {
    if s == [] then 0 else SeparatorCount(s[..|s| - 1]) + (if IsDateSeparator(s[|s| - 1]) then 1 else 0)
  }

  /**
    The loose date shape: 6 to 10 characters, each a digit or one of "/-.", with 4 to 8
    digits and exactly two separators (which need not be the same).
  */
  ghost predicate LooseDate(s: string)
  {
    && 6 <= |s| <= 10
    && (forall i :: 0 <= i < |s| ==> IsDigit(s[i]) || IsDateSeparator(s[i]))
    && 4 <= DigitCount(s) <= 8
    && SeparatorCount(s) == 2
  }

  /** `isDateFormatSecure`: the length test, then the scan counting digits and separators. */
  method IsDateFormatSecure(str: string) returns (r: bool)
    ensures r == LooseDate(str)
  {
    if |str| < 6 || |str| > 10 {
      return false;
    }
    var digits, separators := 0, 0;
    var sep := '\0';
    for i := 0 to |str|
      invariant forall k :: 0 <= k < i ==> IsDigit(str[k]) || IsDateSeparator(str[k])
      invariant digits == DigitCount(str[..i]) && separators == SeparatorCount(str[..i])
    {
      assert str[..i + 1][..i] == str[..i];
      var c := str[i];
      if '0' <= c <= '9' {
        digits := digits + 1;
      } else if c == '/' || c == '-' || c == '.' {
        separators := separators + 1;
        if sep == '\0' {
          sep := c;
        }
      } else {
        return false;
      }
    }
    assert str[..|str|] == str;
    return 4 <= digits <= 8 && separators == 2;
  }

  /** In a loose date every character is a digit or one of the two separators. */
  lemma {:induction false} CountsCoverAll(s: string)
    requires forall i :: 0 <= i < |s| ==> IsDigit(s[i]) || IsDateSeparator(s[i])
    ensures DigitCount(s) + SeparatorCount(s) == |s|
    decreases |s|
  {
    if s != [] {
      CountsCoverAll(s[..|s| - 1]);
    }
  }

  /** A loose date has exactly two more characters than digits, so at most ten characters means at most eight digits. */
  lemma LooseDateLength(s: string)
    requires LooseDate(s)
    ensures |s| == DigitCount(s) + 2
  {
    CountsCoverAll(s);
  }

  /** Counting over a concatenation adds the counts of the two parts. */
  lemma {:induction false} CountsAppend(x: string, y: string)
    ensures DigitCount(x + y) == DigitCount(x) + DigitCount(y)
    ensures SeparatorCount(x + y) == SeparatorCount(x) + SeparatorCount(y)
    decreases |y|
  {
    if y == [] {
      assert x + y == x;
    } else {
      var init := y[..|y| - 1];
      CountsAppend(x, init);
      assert (x + y)[..|x + y| - 1] == x + init;
    }
  }

  /** A run of digits: every character is a digit, none a separator. */
  lemma {:induction false} DigitRunCounts(s: string)
    requires AllDigits(s)
    ensures DigitCount(s) == |s| && SeparatorCount(s) == 0
    decreases |s|
  {
    if s != [] {
      DigitRunCounts(s[..|s| - 1]);
    }
  }

  /** Three digit runs joined by two separators form a loose date when they hold 4 to 8 digits in 6 to 10 characters. */
  lemma ThreeRuns(x: string, s1: char, y: string, s2: char, z: string)
    requires AllDigits(x)
    requires AllDigits(y)
    requires AllDigits(z)
    requires IsDateSeparator(s1) && IsDateSeparator(s2)
    requires 4 <= |x| + |y| + |z| <= 8
    ensures LooseDate(x + [s1] + y + [s2] + z)
  {
    DigitRunCounts(x);
    DigitRunCounts(y);
    DigitRunCounts(z);
    CountsAppend(x, [s1]);
    CountsAppend(x + [s1], y);
    CountsAppend(x + [s1] + y, [s2]);
    CountsAppend(x + [s1] + y + [s2], z);
    var d := x + [s1] + y + [s2] + z;
    forall i | 0 <= i < |d|
      ensures IsDigit(d[i]) || IsDateSeparator(d[i])
    {
      if i < |x| {
        assert d[i] == x[i];
      } else if i == |x| {
      } else if i < |x| + 1 + |y| {
        assert d[i] == y[i - |x| - 1];
      } else if i == |x| + 1 + |y| {
      } else {
        assert d[i] == z[i - |x| - |y| - 2];
      }
    }
  }

  /** Day-first, ISO and mixed-separator spellings pass. */
  lemma DateShapeExamples()
    ensures LooseDate("31/12/2023") && LooseDate("2023-1-5") && LooseDate("1/2-3456")
  {
    ThreeRuns("31", '/', "12", '/', "2023");
    assert "31" + ['/'] + "12" + ['/'] + "2023" == "31/12/2023";
    ThreeRuns("2023", '-', "1", '-', "5");
    assert "2023" + ['-'] + "1" + ['-'] + "5" == "2023-1-5";
    ThreeRuns("1", '/', "2", '-', "3456");
    assert "1" + ['/'] + "2" + ['-'] + "3456" == "1/2-3456";
  }

  /** Five characters, a letter or a third separator are refused. */
  lemma DateShapeRejections()
    ensures !LooseDate("1/2/3") && !LooseDate("2023/1/x")
  {
    assert "2023/1/x"[7] == 'x';
  }
}
