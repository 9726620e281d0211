/**
 * The similarity primitives of schema/schema.py: the longest-common-substring
 * ratio, the edit-distance similarity of the matcher and the containment test.
 */
module Similarity {
  import opened Text
  import opened EditDistance

  // ---------------------------------------------------------------------------
  // Longest common substring
  // ---------------------------------------------------------------------------

  /** Length of the longest common suffix of `a` and `b`: one cell of the dynamic-programming table. */
  function CommonSuffix(a: string, b: string): (k: nat)
    ensures k <= |a| && k <= |b|
  {
    if |a| == 0 || |b| == 0 || a[|a| - 1] != b[|b| - 1] then 0
    else CommonSuffix(a[..|a| - 1], b[..|b| - 1]) + 1
  }

  /** A common run of `k` characters ends at position `i` of `a` and at position `j` of `b`. */
  ghost predicate CommonRun(a: string, b: string, i: int, j: int, k: int) {
    0 <= k <= i <= |a| && k <= j <= |b| && a[i - k..i] == b[j - k..j]
  }

  /** The common suffix of two prefixes is exactly the longest run ending where the prefixes end. */
  lemma {:induction false} CommonSuffixIsLongestRun(a: string, b: string, i: int, j: int, k: int)
    requires 0 <= i <= |a| && 0 <= j <= |b| && 0 <= k
    ensures CommonRun(a, b, i, j, k) <==> k <= CommonSuffix(a[..i], b[..j])
    decreases i
  {
    var c := CommonSuffix(a[..i], b[..j]);
    assert CommonRun(a, b, i, j, k) && k > 0 ==> a[i - 1] == b[j - 1] by {
      if CommonRun(a, b, i, j, k) && k > 0 {
        assert a[i - k..i][k - 1] == b[j - k..j][k - 1];
      }
    }
    if k == 0 {
      assert a[i..i] == b[j..j];
    } else if i == 0 || j == 0 {
    } else if a[i - 1] != b[j - 1] {
      assert a[..i][i - 1] == a[i - 1] && b[..j][j - 1] == b[j - 1];
    } else {
      assert a[..i][..i - 1] == a[..i - 1] && b[..j][..j - 1] == b[..j - 1];
      assert c == CommonSuffix(a[..i - 1], b[..j - 1]) + 1;
      CommonSuffixIsLongestRun(a, b, i - 1, j - 1, k - 1);
      if CommonRun(a, b, i, j, k) {
        assert a[i - k..i - 1] == a[i - k..i][..k - 1];
        assert b[j - k..j - 1] == b[j - k..j][..k - 1];
      }
      if k <= c {
        assert a[i - k..i] == a[i - k..i - 1] + [a[i - 1]];
        assert b[j - k..j] == b[j - k..j - 1] + [b[j - 1]];
      }
    }
  }

  /** Best cell of row `i` of the table among columns 0..j. */
  function RowBest(a: string, b: string, i: nat, j: nat): nat
    requires i <= |a| && j <= |b|
  {
    if j == 0 then CommonSuffix(a[..i], b[..0])
    else Max(RowBest(a, b, i, j - 1), CommonSuffix(a[..i], b[..j]))
  }

  /** Best cell of the table among rows 0..i. */
  function TableBest(a: string, b: string, i: nat): nat
    requires i <= |a|
  {
    if i == 0 then RowBest(a, b, 0, |b|)
    else Max(TableBest(a, b, i - 1), RowBest(a, b, i, |b|))
  }

  /** Length of the longest run of characters common to `a` and `b`. */
  function LongestCommon(a: string, b: string): nat {
    TableBest(a, b, |a|)
  }

  lemma {:induction false} RowBestIsMax(a: string, b: string, i: nat, j: nat)
    requires i <= |a| && j <= |b|
    ensures exists j' :: 0 <= j' <= j && CommonSuffix(a[..i], b[..j']) == RowBest(a, b, i, j)
    ensures forall j' :: 0 <= j' <= j ==> CommonSuffix(a[..i], b[..j']) <= RowBest(a, b, i, j)
  {
    if j == 0 {
      assert CommonSuffix(a[..i], b[..0]) == RowBest(a, b, i, j);
    } else {
      RowBestIsMax(a, b, i, j - 1);
      if RowBest(a, b, i, j) == CommonSuffix(a[..i], b[..j]) {
        assert CommonSuffix(a[..i], b[..j]) == RowBest(a, b, i, j);
      } else {
        var j' :| 0 <= j' <= j - 1 && CommonSuffix(a[..i], b[..j']) == RowBest(a, b, i, j - 1);
        assert CommonSuffix(a[..i], b[..j']) == RowBest(a, b, i, j);
      }
    }
  }

  lemma {:induction false} TableBestIsMax(a: string, b: string, i: nat)
    requires i <= |a|
    ensures exists i', j' :: 0 <= i' <= i && 0 <= j' <= |b| && CommonSuffix(a[..i'], b[..j']) == TableBest(a, b, i)
    ensures forall i', j' :: 0 <= i' <= i && 0 <= j' <= |b| ==> CommonSuffix(a[..i'], b[..j']) <= TableBest(a, b, i)
  {
    RowBestIsMax(a, b, i, |b|);
    if i > 0 {
      TableBestIsMax(a, b, i - 1);
      forall i', j' | 0 <= i' <= i && 0 <= j' <= |b|
        ensures CommonSuffix(a[..i'], b[..j']) <= TableBest(a, b, i)
      {
        if i' == i {
          RowBestIsMax(a, b, i', |b|);
        }
      }
    }
  }

  /** A value that one table cell reaches and no cell exceeds is the longest common run. */
  lemma LongestCommonUnique(a: string, b: string, v: nat, i: nat, j: nat)
    requires i <= |a| && j <= |b| && v == CommonSuffix(a[..i], b[..j])
    requires forall i', j' :: 0 <= i' <= |a| && 0 <= j' <= |b| ==> CommonSuffix(a[..i'], b[..j']) <= v
    ensures v == LongestCommon(a, b)
  {
    TableBestIsMax(a, b, |a|);
  }

  /**
   * `LongestCommon` is the length of the longest common substring: some
   * common run has that length, and no common run is longer.
   */
  lemma LongestCommonIsLongestRun(a: string, b: string)
    ensures exists i, j :: CommonRun(a, b, i, j, LongestCommon(a, b))
    ensures forall i, j, k :: CommonRun(a, b, i, j, k) ==> k <= LongestCommon(a, b)
  {
    TableBestIsMax(a, b, |a|);
    var i, j :| 0 <= i <= |a| && 0 <= j <= |b| && CommonSuffix(a[..i], b[..j]) == LongestCommon(a, b);
    CommonSuffixIsLongestRun(a, b, i, j, LongestCommon(a, b));
    forall i', j', k | CommonRun(a, b, i', j', k) ensures k <= LongestCommon(a, b) {
      CommonSuffixIsLongestRun(a, b, i', j', k);
    }
  }

  /** Neither string has a longer common run with the other than the other has with it. */
  lemma LongestCommonSymmetric(a: string, b: string)
    ensures LongestCommon(a, b) == LongestCommon(b, a)
  {
    LongestCommonIsLongestRun(a, b);
    LongestCommonIsLongestRun(b, a);
    var i, j :| CommonRun(a, b, i, j, LongestCommon(a, b));
    assert CommonRun(b, a, j, i, LongestCommon(a, b));
    var i', j' :| CommonRun(b, a, i', j', LongestCommon(b, a));
    assert CommonRun(a, b, j', i', LongestCommon(b, a));
  }

  /** A string shares all of itself with itself; no common run is longer than either string. */
  lemma LongestCommonBounds(a: string, b: string)
    ensures LongestCommon(a, b) <= |a| && LongestCommon(a, b) <= |b|
    ensures LongestCommon(a, a) == |a|
  {
    LongestCommonIsLongestRun(a, b);
    LongestCommonIsLongestRun(a, a);
    assert CommonRun(a, a, |a|, |a|, |a|);
  }

  /**
   * `_longest_common_substring` as a value: the longest common run divided by
   * the length of the longer string. Both strings empty is a division by zero
   * in the source.
   */
  function LcsRatio(a: string, b: string): (r: real)
    requires |a| > 0 || |b| > 0
    ensures 0.0 <= r <= 1.0
  {
    LongestCommonBounds(a, b);
    Ratio(LongestCommon(a, b), Max(|a|, |b|))
  }

  /** The ratio does not depend on the order of its arguments. */
  lemma LcsRatioSymmetric(a: string, b: string)
    requires |a| > 0 || |b| > 0
    ensures LcsRatio(a, b) == LcsRatio(b, a)
  {
    LongestCommonSymmetric(a, b);
  }

  /** The ratio is 1 exactly for two equal strings: only then is one common run all of both. */
  lemma LcsRatioOne(a: string, b: string)
    requires |a| > 0 || |b| > 0
    ensures LcsRatio(a, b) == 1.0 <==> a == b
  {
    LongestCommonBounds(a, b);
    if LcsRatio(a, b) == 1.0 {
      LongestCommonIsLongestRun(a, b);
      var i, j :| CommonRun(a, b, i, j, LongestCommon(a, b));
      assert a[0..|a|] == a && b[0..|b|] == b;
    }
  }

  /** Cell (i, j) of the table: the longest common suffix of `a[..i]` and `b[..j]`. */
  function Cell(a: string, b: string, i: nat, j: nat): nat
    requires i <= |a| && j <= |b|
  {
    CommonSuffix(a[..i], b[..j])
  }

  /** The recurrence the table is filled by. */
  lemma CellStep(a: string, b: string, i: nat, j: nat)
    requires 0 < i <= |a| && 0 < j <= |b|
    ensures Cell(a, b, i, j) == if a[i - 1] == b[j - 1] then Cell(a, b, i - 1, j - 1) + 1 else 0
  {
    assert a[..i][..i - 1] == a[..i - 1] && b[..j][..j - 1] == b[..j - 1];
  }

  /**
   * The dynamic-programming computation of `_longest_common_substring`: cell
   * (i, j) of the table holds the longest common suffix of `wa[..i]` and
   * `wb[..j]`, and `row`/`col` track the first cell holding the best value.
   */
  method LongestCommonSubstring(wa: string, wb: string) returns (ratio: real)
    requires |wa| > 0 || |wb| > 0
    ensures ratio == LcsRatio(wa, wb)
  {
    var x, y := |wa|, |wb|;
    var table := new nat[x + 1, y + 1]((_, _) => 0);
    var length: nat, row: nat, col: nat := 0, 0, 0;
    for i := 1 to x + 1
      invariant forall i', j' :: 0 <= i' < i && 0 <= j' <= y ==> table[i', j'] == Cell(wa, wb, i', j')
      invariant forall i' :: i <= i' <= x ==> table[i', 0] == 0
      invariant row < i && col <= y && length == Cell(wa, wb, row, col)
      invariant forall i', j' :: 0 <= i' < i && 0 <= j' <= y ==> Cell(wa, wb, i', j') <= length
    {
      length, row, col := FillRow(table, wa, wb, i, length, row, col);
    }
    forall i', j' | 0 <= i' <= x && 0 <= j' <= y ensures CommonSuffix(wa[..i'], wb[..j']) <= length {
      assert Cell(wa, wb, i', j') <= length;
    }
    LongestCommonUnique(wa, wb, length, row, col);
    ratio := length as real / (if x > y then x else y) as real;
  }

  /** One pass of the inner loop: fills row `i` and updates the best cell. */
  method FillRow(table: array2<nat>, wa: string, wb: string, i: nat, length0: nat, row0: nat, col0: nat)
    returns (length: nat, row: nat, col: nat)
    requires table.Length0 == |wa| + 1 && table.Length1 == |wb| + 1 && 0 < i <= |wa|
    requires forall i', j' :: 0 <= i' < i && 0 <= j' <= |wb| ==> table[i', j'] == Cell(wa, wb, i', j')
    requires forall i' :: i <= i' <= |wa| ==> table[i', 0] == 0
    requires row0 < i && col0 <= |wb| && length0 == Cell(wa, wb, row0, col0)
    requires forall i', j' :: 0 <= i' < i && 0 <= j' <= |wb| ==> Cell(wa, wb, i', j') <= length0
    modifies table
    ensures forall i', j' :: 0 <= i' <= i && 0 <= j' <= |wb| ==> table[i', j'] == Cell(wa, wb, i', j')
    ensures forall i' :: i < i' <= |wa| ==> table[i', 0] == 0
    ensures row <= i && col <= |wb| && length == Cell(wa, wb, row, col)
    ensures forall i', j' :: 0 <= i' <= i && 0 <= j' <= |wb| ==> Cell(wa, wb, i', j') <= length
  {
    length, row, col := length0, row0, col0;
    for j := 1 to |wb| + 1
      invariant forall i', j' :: 0 <= i' < i && 0 <= j' <= |wb| ==> table[i', j'] == Cell(wa, wb, i', j')
      invariant forall j' :: 0 <= j' < j ==> table[i, j'] == Cell(wa, wb, i, j')
      invariant forall i' :: i < i' <= |wa| ==> table[i', 0] == 0
      invariant row <= i && col <= |wb| && length == Cell(wa, wb, row, col)
      invariant forall i', j' :: 0 <= i' < i && 0 <= j' <= |wb| ==> Cell(wa, wb, i', j') <= length
      invariant forall j' :: 0 <= j' < j ==> Cell(wa, wb, i, j') <= length
    {
      CellStep(wa, wb, i, j);
      if wa[i - 1] == wb[j - 1] {
        table[i, j] := table[i - 1, j - 1] + 1;
        if length < table[i, j] {
          length := table[i, j];
          row := i;
          col := j;
        }
      } else {
        table[i, j] := 0;
      }
    }
  }

  // ---------------------------------------------------------------------------
  // Edit-distance similarity and containment
  // ---------------------------------------------------------------------------

  /**
   * The similarity the matcher computes for a pair of terms: one minus the
   * Levenshtein distance over the length of the longer term. It lies in
   * [0, 1] and is 1 exactly for equal terms.
   */
  function EditSimilarity(s: string, t: string): (r: real)
    requires |s| > 0 || |t| > 0
    ensures 0.0 <= r <= 1.0
    ensures r == 1.0 <==> s == t
  {
    DistanceAtMostLonger(s, t, false);
    DistanceZeroIffEqual(s, t, false);
    1.0 - Ratio(Levenshtein(s, t), Max(|s|, |t|))
  }

  /**
   * `_contains_as_separate_component(wa, wb)`: whether `wb` occurs in `wa`.
   * Despite its name the source makes a plain substring test, with no
   * word-boundary check, and so does this model.
   */
  function ContainsAsSeparateComponent(wa: string, wb: string): (r: bool)
    ensures r <==> Occurs(wb, wa)
  {
    ContainsIsOccurs(wa, wb);
    Contains(wa, wb)
  }
}
