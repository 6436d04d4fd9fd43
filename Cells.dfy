/**
  Cell-level predicates and rewriters of the WebAssembly build: the numeric-literal test
  `isNumeric`, the whitespace trim, the ASCII case maps and the null-token rewrite.
*/
module Cells {

  predicate IsDigit(c: char)
  {
    '0' <= c <= '9'
  }

  /** Every character is a decimal digit. */
  predicate AllDigits(s: string)
  {
    forall i :: 0 <= i < |s| ==> IsDigit(s[i])
  }

  /** The digits of `s` read as one decimal integer, any other character skipped. */
  function DigitsValue(s: string): nat
  {
    if s == [] then 0
    else
      var c := s[|s| - 1];
      if IsDigit(c) then DigitsValue(s[..|s| - 1]) * 10 + (c as int - '0' as int)
      else DigitsValue(s[..|s| - 1])
  }

  function Pow10(k: nat): (p: nat)
    ensures p >= 1
  {
    if k == 0 then 1 else 10 * Pow10(k - 1)
  }

  lemma {:induction false} Pow10Monotone(j: nat, k: nat)
    requires j <= k
    ensures Pow10(j) <= Pow10(k)
    decreases k
  {
    if j < k {
      Pow10Monotone(j, k - 1);
    }
  }

  /** The value of a string holding `n` digits is below 10^n. */
  lemma {:induction false} DigitsValueBelow(s: string)
    ensures DigitsValue(s) < Pow10(|s|)
    decreases |s|
  {
    if s != [] {
      var init := s[..|s| - 1];
      DigitsValueBelow(init);
      assert DigitsValue(s) <= DigitsValue(init) * 10 + 9;
      assert DigitsValue(init) * 10 + 9 < Pow10(|init|) * 10;
    }
  }

  /** Number of occurrences of `c` in `s`. */
  function CountChar(s: string, c: char): nat
  {
    if s == [] then 0 else CountChar(s[..|s| - 1], c) + (if s[|s| - 1] == c then 1 else 0)
  }

  /** No occurrence counted exactly when the character is absent. */
  lemma {:induction false} CountCharZero(s: string, c: char)
    ensures CountChar(s, c) == 0 <==> c !in s
    decreases |s|
  {
    if s != [] {
      CountCharZero(s[..|s| - 1], c);
      assert s == s[..|s| - 1] + [s[|s| - 1]];
    }
  }

  lemma {:induction false} CountCharPrefix(s: string, c: char, n: nat)
    requires n <= |s|
    ensures CountChar(s[..n], c) <= CountChar(s, c)
    decreases |s|
  {
    if n < |s| {
      assert s[..|s| - 1][..n] == s[..n];
      CountCharPrefix(s[..|s| - 1], c, n);
    } else {
      assert s[..n] == s;
    }
  }

  /** Length of the optional leading sign. */
  function SignLength(s: string): nat
  {
    if s != [] && (s[0] == '-' || s[0] == '+') then 1 else 0
  }

  /**
    The numeric-literal grammar: non-empty, an optional leading '+' or '-', then a
    non-empty rest made of digits and at most one '.'. No digit is required.
  */
  predicate NumericLiteral(s: string)
  {
    var start := SignLength(s);
    && s != []
    && start < |s|
    && (forall i :: start <= i < |s| ==> IsDigit(s[i]) || s[i] == '.')
    && CountChar(s[start..], '.') <= 1
  }

  /** `isNumeric`: the scan with the `hasDecimal` flag. */
  method IsNumeric(s: string) returns (r: bool)
    ensures r == NumericLiteral(s)
  {
    if |s| == 0 {
      return false;
    }
    var start := 0;
    if s[0] == '-' || s[0] == '+' {
      start := 1;
    }
    if start >= |s| {
      return false;
    }
    var hasDecimal := false;
    var i := start;
    while i < |s|
      invariant start <= i <= |s|
      invariant forall k :: start <= k < i ==> IsDigit(s[k]) || s[k] == '.'
      invariant CountChar(s[start..i], '.') == if hasDecimal then 1 else 0
    {
      assert s[start..i + 1][..i - start] == s[start..i];
      if s[i] == '.' {
        if hasDecimal {
          CountCharPrefix(s[start..], '.', i + 1 - start);
          assert s[start..][..i + 1 - start] == s[start..i + 1];
          return false;
        }
        hasDecimal := true;
      } else if s[i] < '0' || s[i] > '9' {
        return false;
      }
      i := i + 1;
    }
    assert s[start..i] == s[start..];
    return true;
  }

  /** A lone point, with or without a sign, is accepted; the empty string, a lone sign and two points are not. */
  lemma NumericExamples()
    ensures NumericLiteral(".") && NumericLiteral("-.") && NumericLiteral("+1.5")
    ensures !NumericLiteral("") && !NumericLiteral("+") && !NumericLiteral("1.2.3") && !NumericLiteral("1e5")
  {
    assert "."[0..] == ".";
    assert "."[..0] == [];
    assert "-."[1..] == ".";
    assert "+1.5"[1..] == "1.5";
    assert "1.5"[..2] == "1." && "1."[..1] == "1" && "1"[..0] == [];
    assert "1.2.3"[0..] == "1.2.3";
    assert "1.2.3"[..4] == "1.2." && "1.2."[..3] == "1.2" && "1.2"[..2] == "1." && "1."[..1] == "1";
    assert "1e5"[1] == 'e';
  }

  predicate IsBlank(c: char)
  {
    c == ' ' || c == '\t'
  }

  /** `find_first_not_of(" \t")`, with `|s|` for npos. */
  function FirstNonBlank(s: string): (i: nat)
    ensures i <= |s|
    ensures forall k :: 0 <= k < i ==> IsBlank(s[k])
    ensures i < |s| ==> !IsBlank(s[i])
  {
    if s == [] || !IsBlank(s[0]) then 0 else 1 + FirstNonBlank(s[1..])
  }

  /** One past `find_last_not_of(" \t")`, with 0 for npos. */
  function EndNonBlank(s: string): (j: nat)
    ensures j <= |s|
    ensures forall k :: j <= k < |s| ==> IsBlank(s[k])
    ensures j > 0 ==> !IsBlank(s[j - 1])
  {
    if s == [] || !IsBlank(s[|s| - 1]) then |s| else EndNonBlank(s[..|s| - 1])
  }

  /** The per-cell trim of `trimWhitespaceString`: the cell from its first to its last non-blank, or "" when all blank. */
  function Trim(cell: string): string
  {
    var start := FirstNonBlank(cell);
    if start == |cell| then "" else cell[start..EndNonBlank(cell)]
  }

  /** What `detectWhitespace` counts: a non-empty cell starting or ending with a space or a tab. */
  predicate Padded(cell: string)
  {
    cell != [] && (IsBlank(cell[0]) || IsBlank(cell[|cell| - 1]))
  }

  /**
    The trim removes only blanks from either end, and what it leaves neither starts
    nor ends with one.
  */
  lemma TrimSpec(cell: string)
    ensures !Padded(Trim(cell))
    ensures exists a, b :: 0 <= a <= b <= |cell| && Trim(cell) == cell[a..b]
              && (forall k :: 0 <= k < a ==> IsBlank(cell[k]))
              && (forall k :: b <= k < |cell| ==> IsBlank(cell[k]))
  {
    var start, end := FirstNonBlank(cell), EndNonBlank(cell);
    if start == |cell| {
      assert Trim(cell) == cell[|cell|..|cell|];
    } else {
      assert !IsBlank(cell[start]);
      assert start < end;
      assert Trim(cell) == cell[start..end];
    }
  }

  /** Trimming a cell that is not padded leaves it alone; trimming a padded one changes it. */
  lemma TrimChangesPadded(cell: string)
    ensures Trim(cell) != cell <==> Padded(cell)
  {
    var start, end := FirstNonBlank(cell), EndNonBlank(cell);
    if !Padded(cell) && cell != [] {
      assert start == 0;
      assert end == |cell|;
      assert cell[0..|cell|] == cell;
    }
    if Padded(cell) {
      TrimSpec(cell);
    }
  }

  lemma TrimIdempotent(cell: string)
    ensures Trim(Trim(cell)) == Trim(cell)
  {
    TrimSpec(cell);
    TrimChangesPadded(Trim(cell));
  }

  function UpperChar(c: char): char
  {
    if 'a' <= c <= 'z' then (c as int - 32) as char else c
  }

  function LowerChar(c: char): char
  {
    if 'A' <= c <= 'Z' then (c as int + 32) as char else c
  }

  /** The ASCII upper-case map of `toUpperCaseString`. */
  function Upper(s: string): (r: string)
    ensures |r| == |s|
    ensures forall i :: 0 <= i < |s| ==> r[i] == UpperChar(s[i])
  {
    seq(|s|, i requires 0 <= i < |s| => UpperChar(s[i]))
  }

  /** The ASCII lower-case map of `toLowerCaseString`. */
  function Lower(s: string): (r: string)
    ensures |r| == |s|
    ensures forall i :: 0 <= i < |s| ==> r[i] == LowerChar(s[i])
  {
    seq(|s|, i requires 0 <= i < |s| => LowerChar(s[i]))
  }

  /** Upper-casing keeps the length, changes only 'a'..'z' (to 'A'..'Z'), leaves no 'a'..'z', and is idempotent. */
  lemma UpperSpec(s: string)
    ensures |Upper(s)| == |s|
    ensures forall i :: 0 <= i < |s| && Upper(s)[i] != s[i] ==>
              'a' <= s[i] <= 'z' && 'A' <= Upper(s)[i] <= 'Z' && Upper(s)[i] as int == s[i] as int - 32
    ensures forall i :: 0 <= i < |s| ==> !('a' <= Upper(s)[i] <= 'z')
    ensures Upper(Upper(s)) == Upper(s)
  {
  }

  /** Lower-casing keeps the length, changes only 'A'..'Z' (to 'a'..'z'), leaves no 'A'..'Z', and is idempotent. */
  lemma LowerSpec(s: string)
    ensures |Lower(s)| == |s|
    ensures forall i :: 0 <= i < |s| && Lower(s)[i] != s[i] ==>
              'A' <= s[i] <= 'Z' && 'a' <= Lower(s)[i] <= 'z' && Lower(s)[i] as int == s[i] as int + 32
    ensures forall i :: 0 <= i < |s| ==> !('A' <= Lower(s)[i] <= 'Z')
    ensures Lower(Lower(s)) == Lower(s)
  {
  }

  /** The in-place loop over the cell's copy that moves 'a'..'z' down by 32. */
  method ToUpperCell(cell: string) returns (r: string)
    ensures r == Upper(cell)
  {
    r := cell;
    for k := 0 to |r|
      invariant |r| == |cell|
      invariant forall i :: 0 <= i < k ==> r[i] == UpperChar(cell[i])
      invariant forall i :: k <= i < |r| ==> r[i] == cell[i]
    {
      if r[k] >= 'a' && r[k] <= 'z' {
        r := r[k := (r[k] as int - 32) as char];
      }
    }
  }

  /** The in-place loop over the cell's copy that moves 'A'..'Z' up by 32. */
  method ToLowerCell(cell: string) returns (r: string)
    ensures r == Lower(cell)
  {
    r := cell;
    for k := 0 to |r|
      invariant |r| == |cell|
      invariant forall i :: 0 <= i < k ==> r[i] == LowerChar(cell[i])
      invariant forall i :: k <= i < |r| ==> r[i] == cell[i]
    {
      if r[k] >= 'A' && r[k] <= 'Z' {
        r := r[k := (r[k] as int + 32) as char];
      }
    }
  }

  /** The literal tokens `detectNullValues` and `standardiseNullValueString` treat as missing. */
  const NullTokens: set<string> := {"N/A", "n/a", "NA", "null", "NULL", "None", "NONE", "-", "?"}

  predicate IsEmptyCell(cell: string)
  {
    cell == ""
  }

  predicate IsNullCell(cell: string)
  {
    cell == "" || cell in NullTokens
  }

  /** The per-cell rewrite of `standardiseNullValueString`. */
  function StandardiseNull(cell: string): string
  {
    if IsNullCell(cell) then "" else cell
  }

  /** Exactly the null cells become "", every other cell is kept, and a second pass changes nothing. */
  lemma StandardiseNullSpec(cell: string)
    ensures StandardiseNull(cell) == "" <==> IsNullCell(cell)
    ensures !IsNullCell(cell) ==> StandardiseNull(cell) == cell
    ensures StandardiseNull(StandardiseNull(cell)) == StandardiseNull(cell)
    ensures StandardiseNull(cell) != cell <==> cell in NullTokens
  {
  }

  /** Every missing cell is a null cell. */
  lemma EmptyIsNull(cell: string)
    ensures IsEmptyCell(cell) ==> IsNullCell(cell)
  {
  }
}
