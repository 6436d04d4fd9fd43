/**
  `detectInconsistentValues`: per column, the non-empty values of the data rows are
  compared pairwise with the edit distance, and near-identical spellings (distance at
  most 2) of different values are counted.
*/
module Inconsistency {
  import opened Tables
  import opened Tokeniser
  import opened Distinct
  import opened Similarity

  /** Largest edit distance at which two different values count as variants of each other. */
  const Threshold := 2

  /** `colValues`: the non-empty cells in column `col` of `rows`, in row order; short rows are skipped. */
  function ColumnValues(rows: Table, col: nat): (vals: seq<string>)
    ensures |vals| <= |rows|
    ensures forall v :: v in vals ==> v != ""
  {
    if rows == [] then []
    else
      var last := rows[|rows| - 1];
      ColumnValues(rows[..|rows| - 1], col) + (if col < |last| && last[col] != "" then [last[col]] else [])
  }

  /**
    The number of `j` with `i < j < upto` that the inner loop counts: `vals[j]` not yet
    processed (not among `vals[..i + 1]`) and within the threshold of `vals[i]`.
  */
  function SimilarCount(vals: seq<string>, i: nat, upto: nat): nat
    requires i < |vals| && upto <= |vals|
  {
    if upto <= i + 1 then 0
    else
      SimilarCount(vals, i, upto - 1)
      + (if vals[upto - 1] !in vals[..i + 1] && Distance(vals[i], vals[upto - 1]) <= Threshold then 1 else 0)
  }

  /** What index `i` adds: nothing for a repeated value, else its similar values plus one for itself when there is any. */
  function Contribution(vals: seq<string>, i: nat): nat
    requires i < |vals|
  {
    if vals[i] in vals[..i] then 0
    else
      var m := SimilarCount(vals, i, |vals|);
      if m > 0 then m + 1 else 0
  }

  function ScoreUpTo(vals: seq<string>, k: nat): nat
    requires k <= |vals|
  {
    if k == 0 then 0 else ScoreUpTo(vals, k - 1) + Contribution(vals, k - 1)
  }

  /** The count for one column; a column with fewer than two values is skipped. */
  function ColumnScore(vals: seq<string>): nat
  {
    if |vals| < 2 then 0 else ScoreUpTo(vals, |vals|)
  }

  /** The counts of the first `c` columns. */
  function ScoreColumns(t: Table, c: nat): nat
    requires t != []
  {
    if c == 0 then 0 else ScoreColumns(t, c - 1) + ColumnScore(ColumnValues(t[1..], c - 1))
  }

  /** The value `detectInconsistentValues` returns for a parsed table; the header fixes the column count. */
  function InconsistentCount(t: Table): nat
  {
    if |t| < 2 then 0 else ScoreColumns(t, |t[0]|)
  }

  /** `detectInconsistentValues`: the header fixes the columns, each column is scored in turn. */
  method DetectInconsistentValues(data: string) returns (count: int)
    ensures count == InconsistentCount(ParseTable(data))
  {
    var parsed := ParseCSVInternal(data);
    if |parsed| < 2 {
      return 0;
    }
    count := 0;
    var numCols := |parsed[0]|;
    for col := 0 to numCols
      invariant count == ScoreColumns(parsed, col)
    {
      var colValues := CollectColumn(parsed, col);
      if |colValues| >= 2 {
        var score := ScoreColumn(colValues);
        count := count + score;
      }
    }
  }

  /** The loop that gathers `colValues` from the rows after the header. */
  method CollectColumn(parsed: Table, col: nat) returns (colValues: seq<string>)
    requires parsed != []
    ensures colValues == ColumnValues(parsed[1..], col)
  {
    colValues := [];
    for row := 1 to |parsed|
      invariant colValues == ColumnValues(parsed[1..row], col)
    {
      assert parsed[1..row + 1][..row - 1] == parsed[1..row];
      if col < |parsed[row]| && parsed[row][col] != "" {
        colValues := colValues + [parsed[row][col]];
      }
    }
    assert parsed[1..|parsed|] == parsed[1..];
  }

  /** The loop over `colValues` with the `processedValues` set, for a column of at least two values. */
  method ScoreColumn(colValues: seq<string>) returns (score: nat)
    requires |colValues| >= 2
    ensures score == ColumnScore(colValues)
  {
    score := 0;
    var processed: set<string> := {};
    for i := 0 to |colValues|
      invariant score == ScoreUpTo(colValues, i)
      invariant forall v :: v in processed <==> v in colValues[..i]
    {
      assert colValues[..i + 1] == colValues[..i] + [colValues[i]];
      if colValues[i] !in processed {
        processed := processed + {colValues[i]};
        var similar := CountSimilar(colValues, i, processed);
        if similar > 0 {
          score := score + similar + 1;
        }
      }
    }
  }

  /** The inner loop: later values not yet processed and within the threshold of `colValues[i]`. */
  method CountSimilar(colValues: seq<string>, i: nat, processed: set<string>) returns (similar: nat)
    requires i < |colValues|
    requires forall v :: v in processed <==> v in colValues[..i + 1]
    ensures similar == SimilarCount(colValues, i, |colValues|)
  {
    similar := 0;
    for j := i + 1 to |colValues|
      invariant similar == SimilarCount(colValues, i, j)
    {
      if colValues[j] !in processed {
        var distance := LevenshteinDistance(colValues[i], colValues[j]);
        if distance <= Threshold {
          similar := similar + 1;
        }
      }
    }
  }

  /** Two different values of the column, within the threshold of each other. */
  ghost predicate HasNearPair(vals: seq<string>)
  {
    exists i, j :: 0 <= i < j < |vals| && vals[i] != vals[j] && Distance(vals[i], vals[j]) <= Threshold
  }

  lemma {:induction false} SimilarCountWitness(vals: seq<string>, i: nat, upto: nat)
    requires i < |vals| && upto <= |vals|
    ensures SimilarCount(vals, i, upto) > 0 <==>
              exists k :: i < k < upto && vals[k] !in vals[..i + 1] && Distance(vals[i], vals[k]) <= Threshold
    decreases upto
  {
    if upto > i + 1 {
      SimilarCountWitness(vals, i, upto - 1);
    }
  }

  lemma {:induction false} ScoreUpToZero(vals: seq<string>, k: nat)
    requires k <= |vals|
    ensures ScoreUpTo(vals, k) == 0 <==> forall i :: 0 <= i < k ==> Contribution(vals, i) == 0
    decreases k
  {
    if k > 0 {
      ScoreUpToZero(vals, k - 1);
    }
  }

  /**
    A column with at least two values scores 0 exactly when no two different values
    in it are within the threshold: exact repeats are never counted, near spellings always are.
  */
  lemma ColumnScoreZero(vals: seq<string>)
    requires |vals| >= 2
    ensures ColumnScore(vals) == 0 <==> !HasNearPair(vals)
  {
    if HasNearPair(vals) {
      NearPairScores(vals);
    } else {
      NoNearPairScoresZero(vals);
    }
  }

  /** A near pair of different values makes some distinct value contribute, so the score is positive. */
  lemma NearPairScores(vals: seq<string>)
    requires HasNearPair(vals)
    ensures ColumnScore(vals) != 0
  {
    ScoreUpToZero(vals, |vals|);
    var i, j :| 0 <= i < j < |vals| && vals[i] != vals[j] && Distance(vals[i], vals[j]) <= Threshold;
    var a, b := FirstIndex(vals, vals[i]), FirstIndex(vals, vals[j]);
    assert a != b;
    DistanceProperties(vals[i], vals[j]);
    var lo, hi := if a < b then a else b, if a < b then b else a;
    assert vals[hi] !in vals[..lo + 1];
    assert vals[lo] !in vals[..lo];
    SimilarCountWitness(vals, lo, |vals|);
    assert Contribution(vals, lo) > 0;
  }

  /** Without a near pair no value contributes, so the score is 0. */
  lemma NoNearPairScoresZero(vals: seq<string>)
    requires !HasNearPair(vals)
    ensures ColumnScore(vals) == 0
  {
    ScoreUpToZero(vals, |vals|);
    forall i | 0 <= i < |vals|
      ensures Contribution(vals, i) == 0
    {
      SimilarCountWitness(vals, i, |vals|);
    }
  }

  lemma {:induction false} ScoreColumnsZero(t: Table, c: nat)
    requires t != []
    ensures ScoreColumns(t, c) == 0 <==> forall col :: 0 <= col < c ==> ColumnScore(ColumnValues(t[1..], col)) == 0
    decreases c
  {
    if c > 0 {
      ScoreColumnsZero(t, c - 1);
      assert ScoreColumns(t, c) == ScoreColumns(t, c - 1) + ColumnScore(ColumnValues(t[1..], c - 1));
    }
  }

  /**
    The table reports nothing exactly when it has fewer than two rows or no column
    (of those the header names) holds two different values within the threshold.
  */
  lemma InconsistentZero(t: Table)
    ensures InconsistentCount(t) == 0 <==>
              |t| < 2 || forall col :: 0 <= col < |t[0]| && |ColumnValues(t[1..], col)| >= 2 ==>
                           !HasNearPair(ColumnValues(t[1..], col))
  {
    if |t| >= 2 {
      ScoreColumnsZero(t, |t[0]|);
      forall col | 0 <= col < |t[0]| && |ColumnValues(t[1..], col)| >= 2
        ensures ColumnScore(ColumnValues(t[1..], col)) == 0 <==> !HasNearPair(ColumnValues(t[1..], col))
      {
        ColumnScoreZero(ColumnValues(t[1..], col));
      }
    }
  }

  lemma {:induction false} SimilarCountBound(vals: seq<string>, i: nat, upto: nat)
    requires i < |vals| && upto <= |vals|
    ensures SimilarCount(vals, i, upto) <= if upto <= i + 1 then 0 else upto - i - 1
    decreases upto
  {
    if upto > i + 1 {
      SimilarCountBound(vals, i, upto - 1);
    }
  }

  lemma {:induction false} ScoreUpToBound(vals: seq<string>, k: nat)
    requires k <= |vals|
    ensures ScoreUpTo(vals, k) <= k * |vals|
    decreases k
  {
    if k > 0 {
      ScoreUpToBound(vals, k - 1);
      SimilarCountBound(vals, k - 1, |vals|);
      assert (k - 1) * |vals| + |vals| == k * |vals|;
    }
  }

  /** A first occurrence adds nothing or at least two (itself and a variant), never more than the values after it plus one. */
  lemma ContributionShape(vals: seq<string>, i: nat)
    requires i < |vals|
    ensures Contribution(vals, i) == 0 || 2 <= Contribution(vals, i) <= |vals| - i
    ensures ColumnScore(vals) <= |vals| * |vals|
  {
    SimilarCountBound(vals, i, |vals|);
    ScoreUpToBound(vals, |vals|);
  }

  /** "Apple" and "apple" in one column count as two inconsistent values. */
  lemma ExampleVariants()
    ensures InconsistentCount([["name"], ["Apple"], ["apple"]]) == 2
  {
    var t: Table := [["name"], ["Apple"], ["apple"]];
    var rows := t[1..];
    assert rows[..1] == [["Apple"]];
    assert rows[..1][..0] == [];
    assert rows[|rows| - 1] == ["apple"] && rows[..|rows| - 1] == rows[..1];
    assert ColumnValues(rows[..1], 0) == ["Apple"];
    var vals := ColumnValues(rows, 0);
    assert vals == ["Apple", "apple"];
    ExampleCase();
    assert vals[..1] == ["Apple"] && vals[..0] == [];
    assert SimilarCount(vals, 0, 2) == 1;
    assert Contribution(vals, 0) == 2;
    assert Contribution(vals, 1) == 0;
  }

  /** An exact repeat is not an inconsistency. */
  lemma ExampleRepeat()
    ensures InconsistentCount([["name"], ["Apple"], ["Apple"]]) == 0
  {
    var t: Table := [["name"], ["Apple"], ["Apple"]];
    var rows := t[1..];
    assert rows[..1] == [["Apple"]];
    assert rows[..1][..0] == [];
    assert rows[|rows| - 1] == ["Apple"] && rows[..|rows| - 1] == rows[..1];
    assert ColumnValues(rows[..1], 0) == ["Apple"];
    var vals := ColumnValues(rows, 0);
    assert vals == ["Apple", "Apple"];
    assert vals[..1] == ["Apple"] && vals[..0] == [];
    assert SimilarCount(vals, 0, 2) == 0;
    assert Contribution(vals, 1) == 0;
  }
}
