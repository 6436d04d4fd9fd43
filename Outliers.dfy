/**
  `detectOutliers` and `removeOutliersString`: per column, the cells of the data rows that
  pass `isNumeric` are converted with `std::stod`; a column with at least four such values
  gets the quartiles q1 = sorted[n/4] and q3 = sorted[3n/4], and every value outside
  [q1 - 1.5 IQR, q3 + 1.5 IQR] marks its row as an outlier row.
*/
module Outliers {
  import opened Wrappers
  import opened Streams
  import opened Tables
  import opened Tokeniser
  import opened Cells

  // ---------------------------------------------------------------------------
  // std::stod on the strings `isNumeric` accepts
  // ---------------------------------------------------------------------------

  predicate HasDigit(s: string)
  {
    exists i :: 0 <= i < |s| && IsDigit(s[i])
  }

  /** The number of characters after the point (0 when there is none). */
  function FractionLength(s: string): nat
  {
    if s == [] || s[|s| - 1] == '.' then 0
    else if '.' in s[..|s| - 1] then FractionLength(s[..|s| - 1]) + 1
    else 0
  }

  const InvalidArgument := "stod: invalid_argument"

  /**
    `std::stod` on a numeric literal: its exact decimal value, or a failure
    (`std::invalid_argument`) when the literal has no digit at all ("." or "-.").
  */
  function Stod(s: string): (r: Result<real>)
    requires NumericLiteral(s)
    ensures r.Failure? <==> !HasDigit(s)
  {
    var body := s[SignLength(s)..];
    if !HasDigit(s) then Failure(InvalidArgument)
    else
      var magnitude := DigitsValue(body) as real / Pow10(FractionLength(body)) as real;
      Success(if s[0] == '-' then -magnitude else magnitude)
  }

  /** An integer converts to its value. */
  lemma StodInteger(s: string)
    requires s == "10"
    ensures NumericLiteral(s) && Stod(s) == Success(10.0)
  {
    IntegerLiteral(s);
    var one := s[..1];
    assert one == "1" && one[..0] == [] && s[..|s| - 1] == one;
    assert DigitsValue(one) == 1;
  }

  /** Appending one character: how the digit value and the count of points change. */
  lemma DigitsSnoc(s: string, c: char)
    ensures DigitsValue(s + [c]) == if IsDigit(c) then DigitsValue(s) * 10 + (c as int - '0' as int) else DigitsValue(s)
    ensures CountChar(s + [c], '.') == CountChar(s, '.') + (if c == '.' then 1 else 0)
  {
    assert (s + [c])[..|s|] == s;
  }

  /** A signed fraction converts to its value. */
  lemma StodFraction(s: string)
    requires s == "-2.5"
    ensures NumericLiteral(s) && Stod(s) == Success(-2.5)
  {
    var body := s[1..];
    DigitsSnoc([], '2');
    assert [] + ['2'] == "2";
    DigitsSnoc("2", '.');
    assert "2" + ['.'] == "2.";
    DigitsSnoc("2.", '5');
    assert "2." + ['5'] == "2.5" == body;
    assert FractionLength("2.") == 0;
    assert body[..|body| - 1] == "2." && '.' in "2.";
    assert FractionLength(body) == 1;
    assert IsDigit(s[1]);
  }

  /** A trailing point adds nothing. */
  lemma StodTrailingPoint(s: string)
    requires s == "5."
    ensures NumericLiteral(s) && Stod(s) == Success(5.0)
  {
    DigitsSnoc([], '5');
    assert [] + ['5'] == "5";
    DigitsSnoc("5", '.');
    assert "5" + ['.'] == s && s[0..] == s;
    assert FractionLength(s) == 0;
    assert IsDigit(s[0]);
  }

  /** A lone point, signed or not, passes `isNumeric` but has no digit to convert. */
  lemma StodLonePoint(s: string)
    requires s == "." || s == "-."
    ensures NumericLiteral(s) && Stod(s) == Failure(InvalidArgument)
  {
    NumericExamples();
    assert forall i :: 0 <= i < |s| ==> !IsDigit(s[i]);
  }


  // ---------------------------------------------------------------------------
  // Sorting the values (std::sort)
  // ---------------------------------------------------------------------------

  ghost predicate Sorted(s: seq<real>)
  {
    forall i, j :: 0 <= i < j < |s| ==> s[i] <= s[j]
  }

  /** `x` placed before the first element it does not exceed. */
  function Insert(x: real, s: seq<real>): (r: seq<real>)
    ensures |r| == |s| + 1
  {
    if s == [] then [x]
    else if x <= s[0] then [x] + s
    else [s[0]] + Insert(x, s[1..])
  }

  /** Inserting into a sorted sequence keeps it sorted and adds exactly `x`. */
  lemma {:induction false} InsertSpec(x: real, s: seq<real>)
    requires Sorted(s)
    ensures Sorted(Insert(x, s))
    ensures multiset(Insert(x, s)) == multiset(s) + multiset{x}
    decreases |s|
  {
    if s != [] && s[0] < x {
      SortedTail(s);
      InsertSpec(x, s[1..]);
      InsertCons(s, x, Insert(x, s[1..]));
    }
  }

  /** Putting the head back in front of the tail with `x` inserted keeps it sorted. */
  lemma InsertCons(s: seq<real>, x: real, rest: seq<real>)
    requires Sorted(s) && s != [] && s[0] < x
    requires Sorted(rest) && multiset(rest) == multiset(s[1..]) + multiset{x}
    ensures Sorted([s[0]] + rest)
    ensures multiset([s[0]] + rest) == multiset(s) + multiset{x}
  {
    assert s == [s[0]] + s[1..];
    forall k | 0 <= k < |rest|
      ensures s[0] <= rest[k]
    {
      assert rest[k] in multiset(rest);
      if rest[k] != x {
        assert rest[k] in s[1..];
      }
    }
  }

  /** The values in ascending order (insertion sort). */
  function SortValues(s: seq<real>): (r: seq<real>)
    ensures |r| == |s|
  {
    if s == [] then [] else Insert(s[0], SortValues(s[1..]))
  }

  /** The sort yields a sorted permutation of its input. */
  lemma {:induction false} SortValuesSpec(s: seq<real>)
    ensures Sorted(SortValues(s))
    ensures multiset(SortValues(s)) == multiset(s)
    decreases |s|
  {
    if s != [] {
      SortValuesSpec(s[1..]);
      InsertSpec(s[0], SortValues(s[1..]));
      assert s == [s[0]] + s[1..];
    }
  }

  // ---------------------------------------------------------------------------
  // One column
  // ---------------------------------------------------------------------------

  /** A `valueRowPairs` entry: the converted value and the row it came from. */
  type Pair = (real, nat)

  function Values(ps: seq<Pair>): (vs: seq<real>)
    ensures |vs| == |ps|
    ensures forall i :: 0 <= i < |ps| ==> vs[i] == ps[i].0
  {
    seq(|ps|, i requires 0 <= i < |ps| => ps[i].0)
  }

  /** The cell the column loop looks at: present in the row and accepted by `isNumeric`. */
  predicate Examined(t: Table, col: nat, r: nat)
    requires r < |t|
  {
    col < |t[r]| && NumericLiteral(t[r][col])
  }

  /**
    `valueRowPairs` after the rows 1 .. upto-1 of column `col`, or the exception the
    first examined cell without a digit raises.
  */
  function Pairs(t: Table, col: nat, upto: nat): Result<seq<Pair>>
    requires upto <= |t|
  {
    if upto <= 1 then Success([])
    else
      match Pairs(t, col, upto - 1)
      case Failure(m) => Failure(m)
      case Success(ps) =>
        if Examined(t, col, upto - 1) then
          match Stod(t[upto - 1][col])
          case Failure(m) => Failure(m)
          case Success(v) => Success(ps + [(v, upto - 1)])
        else Success(ps)
  }

  /** The rows of the pairs whose value lies outside [lower, upper]. */
  function Flagged(ps: seq<Pair>, lower: real, upper: real): set<nat>
  {
    if ps == [] then {}
    else
      var p := ps[|ps| - 1];
      Flagged(ps[..|ps| - 1], lower, upper) + (if p.0 < lower || p.0 > upper then {p.1} else {})
  }

  /** q1, q3 and the fences of a column of at least four values. */
  function Fences(ps: seq<Pair>): (f: (real, real, real, real))
    requires |ps| >= 4
    ensures f.2 == f.0 - 1.5 * (f.1 - f.0) && f.3 == f.1 + 1.5 * (f.1 - f.0)
    ensures f.2 <= f.0 <= f.1 <= f.3
  {
    SortValuesSpec(Values(ps));
    var sorted := SortValues(Values(ps));
    var n := |ps|;
    var q1 := sorted[n / 4];
    var q3 := sorted[3 * n / 4];
    var iqr := q3 - q1;
    (q1, q3, q1 - 1.5 * iqr, q3 + 1.5 * iqr)
  }

  /** The rows one column marks; a column with fewer than four values marks none. */
  function ColumnOutliers(ps: seq<Pair>): set<nat>
  {
    if |ps| < 4 then {}
    else
      var f := Fences(ps);
      Flagged(ps, f.2, f.3)
  }

  /** `outlierRows` after the first `c` columns, or the exception. */
  function OutliersUpTo(t: Table, c: nat): Result<set<nat>>
  {
    if c == 0 then Success({})
    else
      match OutliersUpTo(t, c - 1)
      case Failure(m) => Failure(m)
      case Success(s) =>
        match Pairs(t, c - 1, |t|)
        case Failure(m) => Failure(m)
        case Success(ps) => Success(s + ColumnOutliers(ps))
  }

  /** The outlier rows of a parsed table: none below two rows, else over the header's columns. */
  function OutlierRows(t: Table): Result<set<nat>>
  {
    if |t| < 2 then Success({}) else OutliersUpTo(t, |t[0]|)
  }

  /** The rows with index below `k` that are not in `s`, in order. */
  function KeptRows(t: Table, s: set<nat>, k: nat): Table
    requires k <= |t|
  {
    if k == 0 then [] else KeptRows(t, s, k - 1) + (if k - 1 in s then [] else [t[k - 1]])
  }

  // ---------------------------------------------------------------------------
  // The loops
  // ---------------------------------------------------------------------------

  /** The row loop that fills `valueRowPairs` for one column. */
  method CollectPairs(parsed: Table, col: nat) returns (r: Result<seq<Pair>>)
    ensures r == Pairs(parsed, col, |parsed|)
  {
    var valueRowPairs: seq<Pair> := [];
    if |parsed| <= 1 {
      return Success([]);
    }
    for row := 1 to |parsed|
      invariant Pairs(parsed, col, row) == Success(valueRowPairs)
    {
      if col < |parsed[row]| {
        var numeric := IsNumeric(parsed[row][col]);
        if numeric {
          var val := Stod(parsed[row][col]);
          if val.Failure? {
            assert Pairs(parsed, col, row + 1).Failure?;
            FailurePersists(parsed, col, row + 1, |parsed|);
            return Failure(val.message);
          }
          valueRowPairs := valueRowPairs + [(val.value, row)];
        }
      }
    }
    r := Success(valueRowPairs);
  }

  lemma {:induction false} FailurePersists(t: Table, col: nat, k: nat, upto: nat)
    requires k <= upto <= |t|
    requires Pairs(t, col, k).Failure?
    ensures Pairs(t, col, upto) == Pairs(t, col, k)
    decreases upto
  {
    if upto > k {
      FailurePersists(t, col, k, upto - 1);
    }
  }

  /** Sorting, the quartiles and the marking loop of one column, added to `outlierRows`. */
  method MarkColumn(valueRowPairs: seq<Pair>, outlierRows: set<nat>) returns (marked: set<nat>)
    ensures marked == outlierRows + ColumnOutliers(valueRowPairs)
  {
    marked := outlierRows;
    if |valueRowPairs| < 4 {
      return;
    }
    var sorted := SortValues(Values(valueRowPairs));
    var n := |valueRowPairs|;
    var q1 := sorted[n / 4];
    var q3 := sorted[3 * n / 4];
    var iqr := q3 - q1;
    var lower := q1 - 1.5 * iqr;
    var upper := q3 + 1.5 * iqr;
    for i := 0 to n
      invariant marked == outlierRows + Flagged(valueRowPairs[..i], lower, upper)
    {
      assert valueRowPairs[..i + 1][..i] == valueRowPairs[..i];
      if valueRowPairs[i].0 < lower || valueRowPairs[i].0 > upper {
        marked := marked + {valueRowPairs[i].1};
      }
    }
    assert valueRowPairs[..n] == valueRowPairs;
  }

  /** The column loop shared by both operations. */
  method CollectOutlierRows(parsed: Table) returns (r: Result<set<nat>>)
    requires |parsed| >= 2
    ensures r == OutlierRows(parsed)
  {
    var outlierRows: set<nat> := {};
    var numCols := |parsed[0]|;
    for col := 0 to numCols
      invariant OutliersUpTo(parsed, col) == Success(outlierRows)
    {
      var pairs := CollectPairs(parsed, col);
      if pairs.Failure? {
        OutliersFailurePersists(parsed, col + 1, numCols);
        return Failure(pairs.message);
      }
      outlierRows := MarkColumn(pairs.value, outlierRows);
    }
    r := Success(outlierRows);
  }

  lemma {:induction false} OutliersFailurePersists(t: Table, k: nat, c: nat)
    requires k <= c
    requires OutliersUpTo(t, k).Failure?
    ensures OutliersUpTo(t, c) == OutliersUpTo(t, k)
    decreases c
  {
    if c > k {
      OutliersFailurePersists(t, k, c - 1);
    }
  }

  /** `detectOutliers`: the number of distinct outlier rows, or the escaping exception. */
  method DetectOutliers(data: string) returns (r: Result<int>)
    ensures OutlierRows(ParseTable(data)).Failure? ==> r == Failure(OutlierRows(ParseTable(data)).message)
    ensures OutlierRows(ParseTable(data)).Success? ==> r == Success(|OutlierRows(ParseTable(data)).value|)
  {
    var parsed := ParseCSVInternal(data);
    if |parsed| < 2 {
      return Success(0);
    }
    var rows := CollectOutlierRows(parsed);
    if rows.Failure? {
      return Failure(rows.message);
    }
    r := Success(|rows.value|);
  }

  /** `removeOutliersString`: the rows that are not outlier rows, written back; "" below two rows. */
  method RemoveOutliersString(data: string) returns (r: Result<string>)
    ensures |ParseTable(data)| < 2 ==> r == Success("")
    ensures |ParseTable(data)| >= 2 && OutlierRows(ParseTable(data)).Failure? ==>
              r == Failure(OutlierRows(ParseTable(data)).message)
    ensures |ParseTable(data)| >= 2 && OutlierRows(ParseTable(data)).Success? ==>
              r == Success(Render(KeptRows(ParseTable(data), OutlierRows(ParseTable(data)).value, |ParseTable(data)|)))
  {
    var parsed := ParseCSVInternal(data);
    if |parsed| < 2 {
      return Success("");
    }
    var rows := CollectOutlierRows(parsed);
    if rows.Failure? {
      return Failure(rows.message);
    }
    var outlierRows := rows.value;
    var out := "";
    for i := 0 to |parsed|
      invariant out == Render(KeptRows(parsed, outlierRows, i))
    {
      if i !in outlierRows {
        var rowStr := JoinRow(parsed[i], ',');
        assert KeptRows(parsed, outlierRows, i + 1) == KeptRows(parsed, outlierRows, i) + [parsed[i]];
        RenderSnoc(KeptRows(parsed, outlierRows, i), parsed[i]);
        out := out + rowStr + "\n";
      } else {
        assert KeptRows(parsed, outlierRows, i + 1) == KeptRows(parsed, outlierRows, i);
      }
    }
    r := Success(out);
  }

  // ---------------------------------------------------------------------------
  // Properties
  // ---------------------------------------------------------------------------

  /** The pairs come from data rows, in strictly increasing row order. */
  lemma {:induction false} PairsRows(t: Table, col: nat, upto: nat)
    requires upto <= |t|
    requires Pairs(t, col, upto).Success?
    ensures forall i :: 0 <= i < |Pairs(t, col, upto).value| ==> 1 <= Pairs(t, col, upto).value[i].1 < upto
    ensures forall i, j :: 0 <= i < j < |Pairs(t, col, upto).value| ==>
              Pairs(t, col, upto).value[i].1 < Pairs(t, col, upto).value[j].1
    decreases upto
  {
    if upto > 1 {
      PairsRows(t, col, upto - 1);
    }
  }

  lemma {:induction false} FlaggedFrom(ps: seq<Pair>, lower: real, upper: real)
    ensures forall r :: r in Flagged(ps, lower, upper) <==>
              exists i :: 0 <= i < |ps| && ps[i].1 == r && (ps[i].0 < lower || ps[i].0 > upper)
    decreases |ps|
  {
    if ps != [] {
      var init := ps[..|ps| - 1];
      FlaggedFrom(init, lower, upper);
      forall r | r in Flagged(ps, lower, upper)
        ensures exists i :: 0 <= i < |ps| && ps[i].1 == r && (ps[i].0 < lower || ps[i].0 > upper)
      {
        if r in Flagged(init, lower, upper) {
          var i :| 0 <= i < |init| && init[i].1 == r && (init[i].0 < lower || init[i].0 > upper);
          assert ps[i] == init[i];
        } else {
          assert ps[|ps| - 1].1 == r;
        }
      }
      forall r | exists i :: 0 <= i < |ps| && ps[i].1 == r && (ps[i].0 < lower || ps[i].0 > upper)
        ensures r in Flagged(ps, lower, upper)
      {
        var i :| 0 <= i < |ps| && ps[i].1 == r && (ps[i].0 < lower || ps[i].0 > upper);
        if i < |init| {
          assert init[i] == ps[i];
        }
      }
    }
  }

  /**
    A column marks exactly the rows whose value lies outside the fences, and the fences
    enclose both quartiles, so every value between q1 and q3 is kept.
  */
  lemma ColumnOutliersSpec(t: Table, col: nat)
    requires Pairs(t, col, |t|).Success? && |Pairs(t, col, |t|).value| >= 4
    ensures var ps := Pairs(t, col, |t|).value;
            var f := Fences(ps);
            forall r :: r in ColumnOutliers(ps) <==>
              exists i :: 0 <= i < |ps| && ps[i].1 == r && (ps[i].0 < f.2 || ps[i].0 > f.3)
    ensures var ps := Pairs(t, col, |t|).value;
            var f := Fences(ps);
            forall i :: 0 <= i < |ps| && f.0 <= ps[i].0 <= f.1 ==> ps[i].1 !in ColumnOutliers(ps)
  {
    var ps := Pairs(t, col, |t|).value;
    var f := Fences(ps);
    ColumnFlagged(ps);
    FlaggedFrom(ps, f.2, f.3);
    PairsRows(t, col, |t|);
    FlaggedKeepsInside(ps, f.2, f.3, f.0, f.1);
  }

  /** A column of at least four values marks the rows outside its fences. */
  lemma ColumnFlagged(ps: seq<Pair>)
    requires |ps| >= 4
    ensures ColumnOutliers(ps) == Flagged(ps, Fences(ps).2, Fences(ps).3)
  {
  }

  /** With distinct rows, a value inside [lo, hi] within the bounds leaves its row unmarked. */
  lemma FlaggedKeepsInside(ps: seq<Pair>, lower: real, upper: real, lo: real, hi: real)
    requires lower <= lo && hi <= upper
    requires forall i, j :: 0 <= i < j < |ps| ==> ps[i].1 < ps[j].1
    ensures forall i :: 0 <= i < |ps| && lo <= ps[i].0 <= hi ==> ps[i].1 !in Flagged(ps, lower, upper)
  {
    FlaggedFrom(ps, lower, upper);
    forall i | 0 <= i < |ps| && lo <= ps[i].0 <= hi
      ensures ps[i].1 !in Flagged(ps, lower, upper)
    {
      if ps[i].1 in Flagged(ps, lower, upper) {
        var j :| 0 <= j < |ps| && ps[j].1 == ps[i].1 && (ps[j].0 < lower || ps[j].0 > upper);
        assert false;
      }
    }
  }

  /** A column marks only rows its pairs come from. */
  lemma ColumnOutliersFrom(ps: seq<Pair>, n: nat)
    requires forall i :: 0 <= i < |ps| ==> 1 <= ps[i].1 < n
    ensures forall r :: r in ColumnOutliers(ps) ==> 1 <= r < n
  {
    if |ps| >= 4 {
      var f := Fences(ps);
      FlaggedFrom(ps, f.2, f.3);
    }
  }

  /** A column loop that returns has returned from every earlier column and converted this one. */
  lemma UpToStep(t: Table, c: nat)
    requires c > 0 && OutliersUpTo(t, c).Success?
    ensures OutliersUpTo(t, c - 1).Success? && Pairs(t, c - 1, |t|).Success?
    ensures OutliersUpTo(t, c).value == OutliersUpTo(t, c - 1).value + ColumnOutliers(Pairs(t, c - 1, |t|).value)
  {
  }

  /** The column loop throws at column `c - 1` or before exactly when an earlier column or this one throws. */
  lemma UpToFailureStep(t: Table, c: nat)
    requires c > 0
    ensures OutliersUpTo(t, c).Failure? <==> OutliersUpTo(t, c - 1).Failure? || Pairs(t, c - 1, |t|).Failure?
  {
  }

  lemma {:induction false} OutliersUpToRows(t: Table, c: nat)
    requires OutliersUpTo(t, c).Success?
    ensures forall r :: r in OutliersUpTo(t, c).value ==> 1 <= r < |t|
    decreases c
  {
    if c > 0 {
      UpToStep(t, c);
      OutliersUpToRows(t, c - 1);
      PairsRows(t, c - 1, |t|);
      ColumnOutliersFrom(Pairs(t, c - 1, |t|).value, |t|);
    }
  }

  /** Only data rows are ever marked: the header (row 0) is never an outlier row. */
  lemma OutlierRowsAreDataRows(t: Table)
    requires OutlierRows(t).Success?
    ensures forall r :: r in OutlierRows(t).value ==> 1 <= r < |t|
  {
    if |t| >= 2 {
      OutliersUpToRows(t, |t[0]|);
    }
  }

  lemma {:induction false} KeptRowsCount(t: Table, s: set<nat>, k: nat)
    requires k <= |t|
    ensures |KeptRows(t, s, k)| + |set r | r in s && r < k| == k
    decreases k
  {
    if k > 0 {
      KeptRowsCount(t, s, k - 1);
      var before := set r | r in s && r < k - 1;
      var after := set r | r in s && r < k;
      if k - 1 in s {
        assert after == before + {k - 1};
      } else {
        assert after == before;
      }
    }
  }

  /**
    `removeOutliersString` drops exactly the rows `detectOutliers` counts: the header
    stays first, and the kept rows number the parsed rows minus the outlier count.
  */
  lemma RemovedMatchesDetected(t: Table)
    requires |t| >= 2 && OutlierRows(t).Success?
    ensures |KeptRows(t, OutlierRows(t).value, |t|)| == |t| - |OutlierRows(t).value|
    ensures |KeptRows(t, OutlierRows(t).value, |t|)| >= 1 && KeptRows(t, OutlierRows(t).value, |t|)[0] == t[0]
  {
    var s := OutlierRows(t).value;
    OutlierRowsAreDataRows(t);
    KeptRowsCount(t, s, |t|);
    assert (set r | r in s && r < |t|) == s;
    KeptRowsHead(t, s, |t|);
  }

  lemma {:induction false} KeptRowsHead(t: Table, s: set<nat>, k: nat)
    requires 1 <= k <= |t| && 0 !in s
    ensures |KeptRows(t, s, k)| >= 1 && KeptRows(t, s, k)[0] == t[0]
    decreases k
  {
    if k > 1 {
      KeptRowsHead(t, s, k - 1);
    }
  }

  /** The conversion fails exactly on an examined cell with no digit, in a column the header names. */
  lemma {:induction false} PairsFailure(t: Table, col: nat, upto: nat)
    requires upto <= |t|
    ensures Pairs(t, col, upto).Failure? <==>
              exists r :: 1 <= r < upto && Examined(t, col, r) && !HasDigit(t[r][col])
    decreases upto
  {
    if upto > 1 {
      PairsFailure(t, col, upto - 1);
    }
  }

  lemma {:induction false} OutliersUpToFailure(t: Table, c: nat)
    ensures OutliersUpTo(t, c).Failure? <==>
              exists col, r :: 0 <= col < c && 1 <= r < |t| && Examined(t, col, r) && !HasDigit(t[r][col])
    decreases c
  {
    if c > 0 {
      UpToFailureStep(t, c);
      OutliersUpToFailure(t, c - 1);
      PairsFailure(t, c - 1, |t|);
      if OutliersUpTo(t, c - 1).Failure? {
        var col, r :| 0 <= col < c - 1 && 1 <= r < |t| && Examined(t, col, r) && !HasDigit(t[r][col]);
        assert 0 <= col < c;
      } else if Pairs(t, c - 1, |t|).Failure? {
        var r :| 1 <= r < |t| && Examined(t, c - 1, r) && !HasDigit(t[r][c - 1]);
        assert 0 <= c - 1 < c;
      } else {
        forall col, r | 0 <= col < c && 1 <= r < |t| && Examined(t, col, r)
          ensures HasDigit(t[r][col])
        {
        }
      }
    }
  }

  /**
    The operations throw exactly when a data row holds, in a column the header names, a
    cell that `isNumeric` accepts but that has no digit ("." , "+." or "-.").
  */
  lemma OutlierRowsFailure(t: Table)
    ensures OutlierRows(t).Failure? <==>
              |t| >= 2 && exists col, r :: 0 <= col < |t[0]| && 1 <= r < |t| && Examined(t, col, r) && !HasDigit(t[r][col])
  {
    if |t| >= 2 {
      OutliersUpToFailure(t, |t[0]|);
    }
  }

  // ---------------------------------------------------------------------------
  // Examples
  // ---------------------------------------------------------------------------

  /** The table of the outlier example: an id column and an amount column. */
  const AmountsTable: Table :=
    [["id", "amount"], ["1", "10"], ["2", "12"], ["3", "11"], ["4", "9"], ["5", "1000"]]

  /** The (value, row) pairs of the id column. */
  const IdPairs: seq<Pair> := [(1.0, 1), (2.0, 2), (3.0, 3), (4.0, 4), (5.0, 5)]

  /** The (value, row) pairs of the amount column. */
  const AmountPairs: seq<Pair> := [(10.0, 1), (12.0, 2), (11.0, 3), (9.0, 4), (1000.0, 5)]

  /** A non-empty run of digits is a numeric literal and converts to its decimal value. */
  lemma IntegerLiteral(s: string)
    requires s != [] && AllDigits(s)
    ensures NumericLiteral(s) && Stod(s) == Success(DigitsValue(s) as real)
  {
    assert forall i :: 0 <= i < |s| ==> IsDigit(s[i]);
    assert s[0..] == s;
    assert !IsDigit('.') && !IsDigit('-') && !IsDigit('+');
    assert '.' !in s;
    CountCharZero(s, '.');
    assert HasDigit(s) by {
      assert IsDigit(s[0]);
    }
    assert SignLength(s) == 0;
    assert FractionLength(s) == 0 by {
      assert s[|s| - 1] != '.';
      assert '.' !in s[..|s| - 1];
    }
  }

  /** The head of a sorted sequence is at most any of its elements. */
  lemma SortedHead(s: seq<real>, x: real)
    requires Sorted(s) && x in multiset(s)
    ensures s != [] && s[0] <= x
  {
    assert x in s;
  }

  /** The tail of a sorted sequence is sorted and holds the rest of its elements. */
  lemma SortedTail(s: seq<real>)
    requires Sorted(s) && s != []
    ensures Sorted(s[1..])
    ensures multiset(s[1..]) == multiset(s) - multiset{s[0]}
  {
    assert s == [s[0]] + s[1..];
  }

  /** Two sorted arrangements of the same values are the same sequence: the quartiles do not depend on how the sort breaks ties. */
  lemma {:induction false} SortedUnique(a: seq<real>, b: seq<real>)
    requires Sorted(a) && Sorted(b) && multiset(a) == multiset(b)
    ensures a == b
    decreases |a|
  {
    if a == [] {
      assert |b| == |multiset(b)| == 0;
    } else {
      SameHead(a, b);
      SortedTail(a);
      SortedTail(b);
      SortedUnique(a[1..], b[1..]);
      assert a == [a[0]] + a[1..] && b == [b[0]] + b[1..];
    }
  }

  /** Two sorted arrangements of the same values start with the same value. */
  lemma SameHead(a: seq<real>, b: seq<real>)
    requires Sorted(a) && Sorted(b) && multiset(a) == multiset(b) && a != []
    ensures b != [] && a[0] == b[0]
  {
    assert a[0] in multiset(a);
    SortedHead(b, a[0]);
    assert b[0] in multiset(b);
    SortedHead(a, b[0]);
  }

  /** One step of the row loop over a convertible cell. */
  lemma PairsStep(t: Table, col: nat, k: nat)
    requires 1 <= k < |t| && Pairs(t, col, k).Success?
    requires Examined(t, col, k) && HasDigit(t[k][col])
    ensures Pairs(t, col, k + 1) == Success(Pairs(t, col, k).value + [(Stod(t[k][col]).value, k)])
  {
  }

  /** Row `r` of column `col` is examined, converts, and is paired as `ps[r - 1]` says. */
  predicate RowPairs(t: Table, col: nat, ps: seq<Pair>, r: nat)
    requires 1 <= r < |t| && |ps| == |t| - 1
  {
    Examined(t, col, r) && HasDigit(t[r][col]) && Stod(t[r][col]) == Success(ps[r - 1].0) && ps[r - 1].1 == r
  }

  /**
    A column whose examined rows 1 .. k-1 each convert to the value paired with that row
    yields exactly those pairs.
  */
  lemma {:induction false} PairsOfColumn(t: Table, col: nat, k: nat, ps: seq<Pair>)
    requires 1 <= k <= |t| && |ps| == |t| - 1
    requires forall r :: 1 <= r < k ==> RowPairs(t, col, ps, r)
    ensures Pairs(t, col, k) == Success(ps[..k - 1])
    decreases k
  {
    if k > 1 {
      assert RowPairs(t, col, ps, k - 1);
      PairsOfColumn(t, col, k - 1, ps);
      PairsStep(t, col, k - 1);
      assert ps[..k - 1] == ps[..k - 2] + [ps[k - 2]];
    }
  }

  lemma IdCells()
    ensures forall k :: 1 <= k < 6 ==>
              Examined(AmountsTable, 0, k) && HasDigit(AmountsTable[k][0])
              && Stod(AmountsTable[k][0]) == Success(IdPairs[k - 1].0) && IdPairs[k - 1].1 == k
  {
    forall k | 1 <= k < 6
      ensures Examined(AmountsTable, 0, k) && HasDigit(AmountsTable[k][0])
              && Stod(AmountsTable[k][0]) == Success(IdPairs[k - 1].0) && IdPairs[k - 1].1 == k
    {
      IdCell(k);
    }
  }

  /** The id cell of row `k` is the single digit `k`. */
  lemma IdCell(k: nat)
    requires 1 <= k < 6
    ensures Examined(AmountsTable, 0, k) && HasDigit(AmountsTable[k][0])
            && Stod(AmountsTable[k][0]) == Success(IdPairs[k - 1].0) && IdPairs[k - 1].1 == k
  {
    var c := AmountsTable[k][0];
    assert c == [(k + '0' as int) as char];
    assert c[..0] == [];
    ConvertsTo(c, k);
  }

  lemma IdsPairs()
    ensures Pairs(AmountsTable, 0, 6) == Success(IdPairs)
  {
    IdCells();
    PairsOfColumn(AmountsTable, 0, 6, IdPairs);
    assert IdPairs[..5] == IdPairs;
  }

  /** A run of digits converts to the integer it spells. */
  lemma ConvertsTo(s: string, v: nat)
    requires s != [] && AllDigits(s) && DigitsValue(s) == v
    ensures NumericLiteral(s) && HasDigit(s) && Stod(s) == Success(v as real)
  {
    IntegerLiteral(s);
    assert IsDigit(s[0]);
  }

  lemma SmallAmounts()
    ensures NumericLiteral("10") && HasDigit("10") && Stod("10") == Success(10.0)
    ensures NumericLiteral("12") && HasDigit("12") && Stod("12") == Success(12.0)
    ensures NumericLiteral("11") && HasDigit("11") && Stod("11") == Success(11.0)
    ensures NumericLiteral("9") && HasDigit("9") && Stod("9") == Success(9.0)
  {
    assert "10"[..1] == "1" && "12"[..1] == "1" && "11"[..1] == "1" && "1"[..0] == [] && "9"[..0] == [];
    ConvertsTo("10", 10);
    ConvertsTo("12", 12);
    ConvertsTo("11", 11);
    ConvertsTo("9", 9);
  }

  lemma LargeAmount()
    ensures NumericLiteral("1000") && HasDigit("1000") && Stod("1000") == Success(1000.0)
  {
    assert "1000"[..3] == "100" && "100"[..2] == "10" && "10"[..1] == "1" && "1"[..0] == [];
    ConvertsTo("1000", 1000);
  }

  lemma AmountCells()
    ensures forall k :: 1 <= k < 6 ==>
              Examined(AmountsTable, 1, k) && HasDigit(AmountsTable[k][1])
              && Stod(AmountsTable[k][1]) == Success(AmountPairs[k - 1].0) && AmountPairs[k - 1].1 == k
  {
    SmallAmounts();
    LargeAmount();
  }

  lemma AmountsColumnPairs()
    ensures Pairs(AmountsTable, 1, 6) == Success(AmountPairs)
  {
    AmountCells();
    PairsOfColumn(AmountsTable, 1, 6, AmountPairs);
    assert AmountPairs[..5] == AmountPairs;
  }

  /** The quartiles are the entries n/4 and 3n/4 of any sorted arrangement of the column's values. */
  lemma Quartiles(ps: seq<Pair>, sorted: seq<real>)
    requires |ps| >= 4 && Sorted(sorted) && multiset(sorted) == multiset(Values(ps))
    ensures |sorted| == |ps|
    ensures Fences(ps).0 == sorted[|ps| / 4] && Fences(ps).1 == sorted[3 * |ps| / 4]
  {
    assert |sorted| == |multiset(sorted)| == |multiset(Values(ps))| == |ps|;
    SortValuesSpec(Values(ps));
    SortedUnique(SortValues(Values(ps)), sorted);
  }

  lemma FlaggedNone(ps: seq<Pair>, lower: real, upper: real)
    requires forall i :: 0 <= i < |ps| ==> lower <= ps[i].0 <= upper
    ensures Flagged(ps, lower, upper) == {}
  {
    FlaggedFrom(ps, lower, upper);
  }

  lemma IdsMarkNothing(ids: seq<Pair>)
    requires ids == IdPairs
    ensures ColumnOutliers(ids) == {}
  {
    assert forall i :: 0 <= i < |ids| ==> -1.0 <= ids[i].0 <= 7.0;
    FlaggedNone(ids, -1.0, 7.0);
    var sorted := [1.0, 2.0, 3.0, 4.0, 5.0];
    assert Values(ids) == sorted;
    assert Sorted(sorted);
    Quartiles(ids, sorted);
  }

  /** With five values the quartiles are the second and fourth smallest. */
  lemma FiveQuartiles(ps: seq<Pair>, sorted: seq<real>)
    requires |ps| == 5 && Sorted(sorted) && multiset(sorted) == multiset(Values(ps))
    ensures |sorted| == 5
    ensures Fences(ps).2 == sorted[1] - 1.5 * (sorted[3] - sorted[1])
    ensures Fences(ps).3 == sorted[3] + 1.5 * (sorted[3] - sorted[1])
  {
    Quartiles(ps, sorted);
  }

  lemma AmountValues(amounts: seq<Pair>)
    requires amounts == AmountPairs
    ensures multiset(Values(amounts)) == multiset([9.0, 10.0, 11.0, 12.0, 1000.0])
  {
    var vs := Values(amounts);
    assert vs[0] == 10.0 && vs[1] == 12.0 && vs[2] == 11.0 && vs[3] == 9.0 && vs[4] == 1000.0;
    assert vs == [10.0, 12.0, 11.0, 9.0, 1000.0];
    AmountsPermuted(vs);
  }

  lemma AmountsPermuted(vs: seq<real>)
    requires vs == [10.0, 12.0, 11.0, 9.0, 1000.0]
    ensures multiset(vs) == multiset([9.0, 10.0, 11.0, 12.0, 1000.0])
  {
    calc {
      multiset(vs);
      multiset{10.0} + multiset{12.0} + multiset{11.0} + multiset{9.0} + multiset{1000.0};
      multiset([9.0, 10.0, 11.0, 12.0, 1000.0]);
    }
  }


  /** Quartiles 10 and 12 give the fences 7 and 15. */
  lemma FencesSevenFifteen(ps: seq<Pair>, sorted: seq<real>)
    requires |ps| == 5 && |sorted| == 5 && sorted[1] == 10.0 && sorted[3] == 12.0
    requires Sorted(sorted) && multiset(Values(ps)) == multiset(sorted)
    ensures Fences(ps).2 == 7.0 && Fences(ps).3 == 15.0
  {
    FiveQuartiles(ps, sorted);
  }

  lemma AmountsFences(amounts: seq<Pair>)
    requires amounts == AmountPairs
    ensures |amounts| >= 4 && Fences(amounts).2 == 7.0 && Fences(amounts).3 == 15.0
  {
    AmountValues(amounts);
    var sorted := [9.0, 10.0, 11.0, 12.0, 1000.0];
    assert Sorted(sorted);
    FencesSevenFifteen(amounts, sorted);
  }

  lemma AmountsFlagged(amounts: seq<Pair>)
    requires amounts == AmountPairs
    ensures Flagged(amounts, 7.0, 15.0) == {5}
  {
    assert forall i :: 0 <= i < 4 ==> 7.0 <= amounts[..4][i].0 <= 15.0;
    FlaggedNone(amounts[..4], 7.0, 15.0);
    assert amounts[4] == (1000.0, 5);
  }

  lemma AmountsMarkRowFive(amounts: seq<Pair>)
    requires amounts == AmountPairs
    ensures ColumnOutliers(amounts) == {5}
  {
    AmountsFences(amounts);
    AmountsFlagged(amounts);
  }

  /** A two-column table marks what its two columns mark. */
  lemma TwoColumns(t: Table, first: seq<Pair>, second: seq<Pair>, marked: set<nat>)
    requires |t| >= 2 && |t[0]| == 2
    requires Pairs(t, 0, |t|) == Success(first) && Pairs(t, 1, |t|) == Success(second)
    requires ColumnOutliers(first) + ColumnOutliers(second) == marked
    ensures OutlierRows(t) == Success(marked)
  {
    var zero := OutliersUpTo(t, 0);
    assert zero == Success({});
    var one := OutliersUpTo(t, 1);
    assert one == Success(zero.value + ColumnOutliers(first));
    assert OutliersUpTo(t, 2) == Success(one.value + ColumnOutliers(second));
    assert zero.value + ColumnOutliers(first) == ColumnOutliers(first);
    assert OutlierRows(t) == OutliersUpTo(t, 2);
  }

  lemma AmountsShape(t: Table)
    requires t == AmountsTable
    ensures |t| >= 2 && |t[0]| == 2
  {
  }

  lemma AmountsColumns(t: Table, ids: seq<Pair>, amounts: seq<Pair>)
    requires t == AmountsTable && ids == IdPairs && amounts == AmountPairs
    ensures Pairs(t, 0, |t|) == Success(ids) && Pairs(t, 1, |t|) == Success(amounts)
  {
    IdsPairs();
    AmountsColumnPairs();
  }

  lemma AmountsMarks(ids: seq<Pair>, amounts: seq<Pair>)
    requires ids == IdPairs && amounts == AmountPairs
    ensures ColumnOutliers(ids) + ColumnOutliers(amounts) == {5}
  {
    IdsMarkNothing(ids);
    AmountsMarkRowFive(amounts);
  }

  /** Only the 1000 lies outside its column's fences, so row 5 is the one outlier row; the id column marks nothing. */
  lemma ExampleAmounts(t: Table, ids: seq<Pair>, amounts: seq<Pair>)
    requires t == AmountsTable && ids == IdPairs && amounts == AmountPairs
    ensures OutlierRows(t) == Success({5})
  {
    AmountsShape(t);
    AmountsColumns(t, ids, amounts);
    AmountsMarks(ids, amounts);
    TwoColumns(t, ids, amounts, {5});
  }

  /** With no index below `k` removed, the kept rows are the first `k` rows. */
  lemma {:induction false} KeptRowsNone(t: Table, s: set<nat>, k: nat)
    requires k <= |t| && forall i :: 0 <= i < k ==> i !in s
    ensures KeptRows(t, s, k) == t[..k]
    decreases k
  {
    if k > 0 {
      KeptRowsNone(t, s, k - 1);
      assert t[..k] == t[..k - 1] + [t[k - 1]];
    }
  }

  /** Two cells joined by ','. */
  lemma JoinPair(a: string, b: string)
    ensures Join([a, b], ',') == a + [','] + b
  {
    assert [a, b][..1] == [a];
  }

  /** The example table written out, row by row. */
  lemma AmountsRender(t: Table)
    requires t == AmountsTable
    ensures Render(t[..5]) == "id,amount\n1,10\n2,12\n3,11\n4,9\n"
    ensures Render(t) == "id,amount\n1,10\n2,12\n3,11\n4,9\n5,1000\n"
  {
    assert t[..0] == [] && Render([]) == "";
    RenderRow(t, 1, "", "id,amount\n");
    RenderRow(t, 2, "id,amount\n", "id,amount\n1,10\n");
    RenderRow(t, 3, "id,amount\n1,10\n", "id,amount\n1,10\n2,12\n");
    RenderRow(t, 4, "id,amount\n1,10\n2,12\n", "id,amount\n1,10\n2,12\n3,11\n");
    RenderRow(t, 5, "id,amount\n1,10\n2,12\n3,11\n", "id,amount\n1,10\n2,12\n3,11\n4,9\n");
    RenderRow(t, 6, "id,amount\n1,10\n2,12\n3,11\n4,9\n", "id,amount\n1,10\n2,12\n3,11\n4,9\n5,1000\n");
    assert t[..6] == t;
  }

  /** Rendering one more two-cell row of the example table appends `a,b` and a newline. */
  lemma RenderRow(t: Table, k: nat, before: string, after: string)
    requires 1 <= k <= |t| && |t[k - 1]| == 2 && Render(t[..k - 1]) == before
    requires after == before + t[k - 1][0] + [','] + t[k - 1][1] + "\n"
    ensures Render(t[..k]) == after
  {
    assert t[..k] == t[..k - 1] + [t[k - 1]];
    assert t[k - 1] == [t[k - 1][0], t[k - 1][1]];
    RenderSnoc(t[..k - 1], t[k - 1]);
    JoinPair(t[k - 1][0], t[k - 1][1]);
  }

  /** The example table is what the tokeniser could produce, and no row ends in an empty cell. */
  lemma AmountsWellFormed(t: Table)
    requires t == AmountsTable
    ensures WellFormed(t)
    ensures forall row :: row in t ==> row[|row| - 1] != ""
  {
    forall row | row in t
      ensures row != [] && Free(row, ',') && Free(row, '\n') && row[|row| - 1] != ""
    {
      var i :| 0 <= i < |t| && t[i] == row;
      assert |row| == 2 && row[0] != "" && row[1] != "";
      assert forall c :: c in row[0] || c in row[1] ==> IsDigit(c) || 'a' <= c <= 'z';
    }
  }

  /** The example text parses to the example table. */
  lemma AmountsParse(data: string)
    requires data == "id,amount\n1,10\n2,12\n3,11\n4,9\n5,1000\n"
    ensures ParseTable(data) == AmountsTable
  {
    var t := AmountsTable;
    AmountsRender(t);
    AmountsWellFormed(t);
    RenderParse(t);
  }

  /**
    The example on its text: `detectOutliers` counts one outlier row, and
    `removeOutliersString` writes back the header and the data rows 1 to 4.
  */
  lemma ExampleAmountsText(data: string)
    requires data == "id,amount\n1,10\n2,12\n3,11\n4,9\n5,1000\n"
    ensures ParseTable(data) == AmountsTable
    ensures OutlierRows(ParseTable(data)) == Success({5})
    ensures |OutlierRows(ParseTable(data)).value| == 1
    ensures Render(KeptRows(ParseTable(data), {5}, |ParseTable(data)|)) == "id,amount\n1,10\n2,12\n3,11\n4,9\n"
  {
    AmountsParse(data);
    var t := ParseTable(data);
    ExampleAmounts(t, IdPairs, AmountPairs);
    AmountsKept(t);
    AmountsRender(t);
  }

  /** Removing row 5 of the example table keeps its first five rows. */
  lemma AmountsKept(t: Table)
    requires t == AmountsTable
    ensures KeptRows(t, {5}, |t|) == t[..5]
  {
    KeptRowsNone(t, {5}, 5);
    assert KeptRows(t, {5}, 6) == KeptRows(t, {5}, 5);
  }

  // ---------------------------------------------------------------------------
  // The lone decimal point
  // ---------------------------------------------------------------------------

  /** The text of the lone-point example parses to a header and one data row. */
  lemma LonePointParse(data: string)
    requires data == "a\n.\n"
    ensures ParseTable(data) == [["a"], ["."]]
  {
    GetlinesStep(".", '\n', "");
    GetlinesStep("a", '\n', ".\n");
    assert "." + ['\n'] + "" == ".\n";
    assert "a" + ['\n'] + ".\n" == data;
    IndexOfFree("a", ',');
    IndexOfFree(".", ',');
    var lines := Getlines(data, '\n');
    assert lines == ["a", "."] && lines[1..] == ["."];
    assert Getlines("a", ',') == ["a"] && Getlines(".", ',') == ["."];
    assert RowsOf(["."]) == [["."]] + RowsOf([]);
  }

  /** A header over a single data cell "." makes the column loop throw. */
  lemma LonePointTable(t: Table)
    requires t == [["a"], ["."]]
    ensures OutlierRows(t).Failure?
  {
    NumericExamples();
    assert !IsDigit(t[1][0][0]);
    assert Examined(t, 0, 1) && !HasDigit(t[1][0]);
    OutlierRowsFailure(t);
  }

  /** A column whose only data cell is "." makes both operations throw. */
  lemma LonePointThrows()
    ensures ParseTable("a\n.\n") == [["a"], ["."]]
    ensures OutlierRows(ParseTable("a\n.\n")).Failure?
  {
    LonePointParse("a\n.\n");
    LonePointTable(ParseTable("a\n.\n"));
  }

  /** An examined data cell, in a column the header names, with no digit for `std::stod` to read. */
  predicate Unconvertible(t: Table, col: nat, r: nat)
    requires r < |t|
  {
    1 <= r && col < |t[0]| && Examined(t, col, r) && !HasDigit(t[r][col])
  }

  /**
    The table with every unconvertible cell blanked out. A blank cell fails `isNumeric`,
    so the column loop skips it like any other non-numeric cell.
  */
  function Blanked(t: Table): (b: Table)
    ensures |b| == |t|
    ensures forall r :: 0 <= r < |t| ==> |b[r]| == |t[r]|
    ensures forall r, col :: 0 <= r < |t| && 0 <= col < |t[r]| ==>
              b[r][col] == if Unconvertible(t, col, r) then "" else t[r][col]
  {
    seq(|t|, r requires 0 <= r < |t| =>
      seq(|t[r]|, col requires 0 <= col < |t[r]| => if Unconvertible(t, col, r) then "" else t[r][col]))
  }

  /** The outlier rows when cells without a digit are skipped instead of converted. */
  function CheckedOutlierRows(t: Table): set<nat>
  {
    match OutlierRows(Blanked(t))
    case Success(rows) => rows
    case Failure(_) => {}
  }

  /** The column loop never throws on a blanked table. */
  lemma BlankedConverts(t: Table)
    ensures OutlierRows(Blanked(t)).Success?
  {
    var b := Blanked(t);
    OutlierRowsFailure(b);
    if |b| >= 2 {
      forall col, r | 0 <= col < |b[0]| && 1 <= r < |b| && Examined(b, col, r)
        ensures HasDigit(b[r][col])
      {
        assert b[r][col] != "";
        assert b[r][col] == t[r][col] && !Unconvertible(t, col, r);
      }
    }
  }

  /** Without an unconvertible cell, blanking changes nothing. */
  lemma BlankedUnchanged(t: Table)
    requires forall col, r :: 0 <= r < |t| ==> !Unconvertible(t, col, r)
    ensures Blanked(t) == t
  {
    var b := Blanked(t);
    forall r | 0 <= r < |t|
      ensures b[r] == t[r]
    {
      assert forall col :: 0 <= col < |t[r]| ==> b[r][col] == t[r][col];
    }
  }

  /** The lone-point column, once blanked, has no value and marks nothing. */
  lemma LonePointBlanked(t: Table)
    requires t == [["a"], ["."]]
    ensures CheckedOutlierRows(t) == {}
  {
    NumericExamples();
    assert !IsDigit(t[1][0][0]);
    assert Unconvertible(t, 0, 1);
    var b := Blanked(t);
    assert b[0] == ["a"] && b[1] == [""];
    assert !Examined(b, 0, 1);
    assert |b| == 2 && |b[0]| == 1;
    assert Pairs(b, 0, |b|) == Success([]);
    assert OutliersUpTo(b, 1) == Success({} + ColumnOutliers([]));
  }

  /**
    The corrected rule never throws, marks the same rows as the operations whenever they
    do not throw, marks only data rows, and leaves the lone-point column alone.
  */
  lemma CheckedOutlierRowsSpec(t: Table)
    ensures OutlierRows(Blanked(t)).Success?
    ensures OutlierRows(t).Success? ==> OutlierRows(t).value == CheckedOutlierRows(t)
    ensures forall r :: r in CheckedOutlierRows(t) ==> 1 <= r < |t|
    ensures CheckedOutlierRows(ParseTable("a\n.\n")) == {}
  {
    BlankedConverts(t);
    if OutlierRows(t).Success? {
      OutlierRowsFailure(t);
      BlankedUnchanged(t);
    }
    OutlierRowsAreDataRows(Blanked(t));
    LonePointParse("a\n.\n");
    LonePointBlanked(ParseTable("a\n.\n"));
  }
}
