/**
  `levenshteinDistance`: the edit distance computed by the full dynamic-programming table,
  with unit cost for insertion, deletion and substitution.
*/
module Similarity {

  function Min3(x: nat, y: nat, z: nat): (m: nat)
    ensures m <= x && m <= y && m <= z
    ensures m == x || m == y || m == z
  {
    if x <= y && x <= z then x else if y <= z then y else z
  }

  /**
    The table entry `dp[i][j]`: the distance between the first `i` characters of `a`
    and the first `j` characters of `b`.
  */
  function Dist(a: string, b: string, i: nat, j: nat): nat
    requires i <= |a| && j <= |b|
    decreases i + j
  {
    if i == 0 then j
    else if j == 0 then i
    else if a[i - 1] == b[j - 1] then Dist(a, b, i - 1, j - 1)
    else 1 + Min3(Dist(a, b, i - 1, j), Dist(a, b, i, j - 1), Dist(a, b, i - 1, j - 1))
  }

  /** The distance between two whole strings. */
  function Distance(a: string, b: string): nat
  {
    Dist(a, b, |a|, |b|)
  }

  /** Row `r` of the table holds the true distances in its first `upto` columns. */
  ghost predicate RowFilled(dp: array2<int>, a: string, b: string, r: nat, upto: nat)
    reads dp
    requires r <= |a| && upto <= |b| + 1
    requires dp.Length0 == |a| + 1 && dp.Length1 == |b| + 1
  {
    forall q :: 0 <= q < upto ==> dp[r, q] == Dist(a, b, r, q)
  }

  /** One cell of the table from its three neighbours. */
  lemma DistStep(a: string, b: string, i: nat, j: nat, diag: nat, up: nat, left: nat, v: nat)
    requires 0 < i <= |a| && 0 < j <= |b|
    requires diag == Dist(a, b, i - 1, j - 1) && up == Dist(a, b, i - 1, j) && left == Dist(a, b, i, j - 1)
    requires v == if a[i - 1] == b[j - 1] then diag else 1 + Min3(up, left, diag)
    ensures v == Dist(a, b, i, j)
  {
  }

  /** `levenshteinDistance`: fill column 0, row 0, then every row left to right, and read `dp[m][n]`. */
  method LevenshteinDistance(s1: string, s2: string) returns (d: int)
    ensures d == Distance(s1, s2)
  {
    var m, n := |s1|, |s2|;
    var dp := new int[m + 1, n + 1];
    for i := 0 to m + 1
      invariant forall p :: 0 <= p < i ==> dp[p, 0] == p
    {
      dp[i, 0] := i;
    }
    for j := 0 to n + 1
      invariant forall p :: 0 <= p <= m ==> dp[p, 0] == p
      invariant RowFilled(dp, s1, s2, 0, j)
    {
      dp[0, j] := j;
    }
    for i := 1 to m + 1
      invariant RowFilled(dp, s1, s2, i - 1, n + 1)
      invariant forall p :: i <= p <= m ==> dp[p, 0] == p
    {
      for j := 1 to n + 1
        invariant RowFilled(dp, s1, s2, i - 1, n + 1)
        invariant RowFilled(dp, s1, s2, i, j)
        invariant forall p :: i < p <= m ==> dp[p, 0] == p
      {
        var diag, up, left := dp[i - 1, j - 1], dp[i - 1, j], dp[i, j - 1];
        var v := if s1[i - 1] == s2[j - 1] then diag else 1 + Min3(up, left, diag);
        DistStep(s1, s2, i, j, diag, up, left, v);
        dp[i, j] := v;
      }
    }
    d := dp[m, n];
  }

  /** The distance is symmetric. */
  lemma {:induction false} DistSymmetric(a: string, b: string, i: nat, j: nat)
    requires i <= |a| && j <= |b|
    ensures Dist(a, b, i, j) == Dist(b, a, j, i)
    decreases i + j
  {
    if i > 0 && j > 0 {
      DistSymmetric(a, b, i - 1, j - 1);
      if a[i - 1] != b[j - 1] {
        DistSymmetric(a, b, i - 1, j);
        DistSymmetric(a, b, i, j - 1);
      }
    }
  }

  /** The distance is at least the difference of the two lengths. */
  lemma {:induction false} DistLower(a: string, b: string, i: nat, j: nat)
    requires i <= |a| && j <= |b|
    ensures (if i <= j then j - i else i - j) <= Dist(a, b, i, j)
    decreases i + j
  {
    if i > 0 && j > 0 {
      DistLower(a, b, i - 1, j - 1);
      if a[i - 1] != b[j - 1] {
        DistLower(a, b, i - 1, j);
        DistLower(a, b, i, j - 1);
      }
    }
  }

  /** The distance is at most the larger of the two lengths. */
  lemma {:induction false} DistUpper(a: string, b: string, i: nat, j: nat)
    requires i <= |a| && j <= |b|
    ensures Dist(a, b, i, j) <= (if i <= j then j else i)
    decreases i + j
  {
    if i > 0 && j > 0 {
      DistUpper(a, b, i - 1, j - 1);
    }
  }

  /** The distance is zero exactly between equal prefixes. */
  lemma {:induction false} DistZero(a: string, b: string, i: nat, j: nat)
    requires i <= |a| && j <= |b|
    ensures Dist(a, b, i, j) == 0 <==> a[..i] == b[..j]
    decreases i + j
  {
    if i > 0 && j > 0 {
      DistZero(a, b, i - 1, j - 1);
      assert a[..i] == a[..i - 1] + [a[i - 1]];
      assert b[..j] == b[..j - 1] + [b[j - 1]];
      if a[..i] == b[..j] {
        assert a[i - 1] == a[..i][i - 1] == b[..j][j - 1] == b[j - 1];
        assert a[..i - 1] == a[..i][..i - 1] == b[..j][..j - 1] == b[..j - 1];
      }
    }
  }

  /** Whole-string properties: symmetric, zero exactly for equal strings, within the length bounds. */
  lemma DistanceProperties(a: string, b: string)
    ensures Distance(a, b) == Distance(b, a)
    ensures Distance(a, b) == 0 <==> a == b
    ensures (if |a| <= |b| then |b| - |a| else |a| - |b|) <= Distance(a, b)
    ensures Distance(a, b) <= (if |a| <= |b| then |b| else |a|)
  {
    DistSymmetric(a, b, |a|, |b|);
    DistZero(a, b, |a|, |b|);
    DistLower(a, b, |a|, |b|);
    DistUpper(a, b, |a|, |b|);
    assert a[..|a|] == a && b[..|b|] == b;
  }

  /** One substituted letter: "Apple" is at distance 1 from "apple". */
  lemma ExampleCase()
    ensures Distance("Apple", "apple") == 1
  {
    assert Dist("Apple", "apple", 1, 1) == 1;
    assert Dist("Apple", "apple", 2, 2) == 1;
    assert Dist("Apple", "apple", 3, 3) == 1;
    assert Dist("Apple", "apple", 4, 4) == 1;
  }

  /** One deleted letter: "color" is at distance 1 from "colour". */
  lemma ExampleDeletion()
    ensures Distance("colour", "color") == 1
  {
    DistZero("colour", "color", 4, 4);
    assert "colour"[..4] == "color"[..4];
    DistLower("colour", "color", 5, 4);
    DistLower("colour", "color", 4, 5);
    assert Dist("colour", "color", 5, 5) == 1 + Min3(Dist("colour", "color", 4, 5), Dist("colour", "color", 5, 4), Dist("colour", "color", 4, 4));
    assert Dist("colour", "color", 5, 4) == 1;
    assert Dist("colour", "color", 6, 5) == Dist("colour", "color", 5, 4);
  }

  /** Row 1 of the table for "kitten" and "sitting", from row 0. */
  lemma KittenRow1(a: string, b: string)
    requires a == "kitten" && b == "sitting"
    ensures Dist(a, b, 1, 0) == 1 && Dist(a, b, 1, 1) == 1 && Dist(a, b, 1, 2) == 2 && Dist(a, b, 1, 3) == 3
    ensures Dist(a, b, 1, 4) == 4 && Dist(a, b, 1, 5) == 5 && Dist(a, b, 1, 6) == 6 && Dist(a, b, 1, 7) == 7
  {
    DistStep(a, b, 1, 1, 0, 1, 1, 1);
    DistStep(a, b, 1, 2, 1, 2, 1, 2);
    DistStep(a, b, 1, 3, 2, 3, 2, 3);
    DistStep(a, b, 1, 4, 3, 4, 3, 4);
    DistStep(a, b, 1, 5, 4, 5, 4, 5);
    DistStep(a, b, 1, 6, 5, 6, 5, 6);
    DistStep(a, b, 1, 7, 6, 7, 6, 7);
  }

  /** Row 2 of the table for "kitten" and "sitting", from row 1. */
  lemma KittenRow2(a: string, b: string)
    requires a == "kitten" && b == "sitting"
    ensures Dist(a, b, 2, 0) == 2 && Dist(a, b, 2, 1) == 2 && Dist(a, b, 2, 2) == 1 && Dist(a, b, 2, 3) == 2
    ensures Dist(a, b, 2, 4) == 3 && Dist(a, b, 2, 5) == 4 && Dist(a, b, 2, 6) == 5 && Dist(a, b, 2, 7) == 6
  {
    KittenRow1(a, b);
    DistStep(a, b, 2, 1, 1, 1, 2, 2);
    DistStep(a, b, 2, 2, 1, 2, 2, 1);
    DistStep(a, b, 2, 3, 2, 3, 1, 2);
    DistStep(a, b, 2, 4, 3, 4, 2, 3);
    DistStep(a, b, 2, 5, 4, 5, 3, 4);
    DistStep(a, b, 2, 6, 5, 6, 4, 5);
    DistStep(a, b, 2, 7, 6, 7, 5, 6);
  }

  /** Row 3 of the table for "kitten" and "sitting", from row 2. */
  lemma KittenRow3(a: string, b: string)
    requires a == "kitten" && b == "sitting"
    ensures Dist(a, b, 3, 0) == 3 && Dist(a, b, 3, 1) == 3 && Dist(a, b, 3, 2) == 2 && Dist(a, b, 3, 3) == 1
    ensures Dist(a, b, 3, 4) == 2 && Dist(a, b, 3, 5) == 3 && Dist(a, b, 3, 6) == 4 && Dist(a, b, 3, 7) == 5
  {
    KittenRow2(a, b);
    DistStep(a, b, 3, 1, 2, 2, 3, 3);
    DistStep(a, b, 3, 2, 2, 1, 3, 2);
    DistStep(a, b, 3, 3, 1, 2, 2, 1);
    DistStep(a, b, 3, 4, 2, 3, 1, 2);
    DistStep(a, b, 3, 5, 3, 4, 2, 3);
    DistStep(a, b, 3, 6, 4, 5, 3, 4);
    DistStep(a, b, 3, 7, 5, 6, 4, 5);
  }

  /** Row 4 of the table for "kitten" and "sitting", from row 3. */
  lemma KittenRow4(a: string, b: string)
    requires a == "kitten" && b == "sitting"
    ensures Dist(a, b, 4, 0) == 4 && Dist(a, b, 4, 1) == 4 && Dist(a, b, 4, 2) == 3 && Dist(a, b, 4, 3) == 2
    ensures Dist(a, b, 4, 4) == 1 && Dist(a, b, 4, 5) == 2 && Dist(a, b, 4, 6) == 3 && Dist(a, b, 4, 7) == 4
  {
    KittenRow3(a, b);
    DistStep(a, b, 4, 1, 3, 3, 4, 4);
    DistStep(a, b, 4, 2, 3, 2, 4, 3);
    DistStep(a, b, 4, 3, 2, 1, 3, 2);
    DistStep(a, b, 4, 4, 1, 2, 2, 1);
    DistStep(a, b, 4, 5, 2, 3, 1, 2);
    DistStep(a, b, 4, 6, 3, 4, 2, 3);
    DistStep(a, b, 4, 7, 4, 5, 3, 4);
  }

  /** Row 5 of the table for "kitten" and "sitting", from row 4. */
  lemma KittenRow5(a: string, b: string)
    requires a == "kitten" && b == "sitting"
    ensures Dist(a, b, 5, 0) == 5 && Dist(a, b, 5, 1) == 5 && Dist(a, b, 5, 2) == 4 && Dist(a, b, 5, 3) == 3
    ensures Dist(a, b, 5, 4) == 2 && Dist(a, b, 5, 5) == 2 && Dist(a, b, 5, 6) == 3 && Dist(a, b, 5, 7) == 4
  {
    KittenRow4(a, b);
    DistStep(a, b, 5, 1, 4, 4, 5, 5);
    DistStep(a, b, 5, 2, 4, 3, 5, 4);
    DistStep(a, b, 5, 3, 3, 2, 4, 3);
    DistStep(a, b, 5, 4, 2, 1, 3, 2);
    DistStep(a, b, 5, 5, 1, 2, 2, 2);
    DistStep(a, b, 5, 6, 2, 3, 2, 3);
    DistStep(a, b, 5, 7, 3, 4, 3, 4);
  }

  /** Row 6 of the table for "kitten" and "sitting", from row 5. */
  lemma KittenRow6(a: string, b: string)
    requires a == "kitten" && b == "sitting"
    ensures Dist(a, b, 6, 0) == 6 && Dist(a, b, 6, 1) == 6 && Dist(a, b, 6, 2) == 5 && Dist(a, b, 6, 3) == 4
    ensures Dist(a, b, 6, 4) == 3 && Dist(a, b, 6, 5) == 3 && Dist(a, b, 6, 6) == 2 && Dist(a, b, 6, 7) == 3
  {
    KittenRow5(a, b);
    DistStep(a, b, 6, 1, 5, 5, 6, 6);
    DistStep(a, b, 6, 2, 5, 4, 6, 5);
    DistStep(a, b, 6, 3, 4, 3, 5, 4);
    DistStep(a, b, 6, 4, 3, 2, 4, 3);
    DistStep(a, b, 6, 5, 2, 2, 3, 3);
    DistStep(a, b, 6, 6, 2, 3, 3, 2);
    DistStep(a, b, 6, 7, 3, 4, 2, 3);
  }

  /** Two substitutions and one insertion: "kitten" is at distance 3 from "sitting". */
  lemma ExampleKitten()
    ensures Distance("kitten", "sitting") == 3
  {
    KittenRow6("kitten", "sitting");
  }
}
