// Longest common substring of two texts by dynamic programming over the table
// of common-suffix lengths.

module LongestCommon {

  /** `s1[a1..a1 + k]` and `s2[a2..a2 + k]` are the same run of `k` characters. */
  ghost predicate IsCommonRun(s1: string, s2: string, a1: int, a2: int, k: int)
  {
    0 <= k && 0 <= a1 && a1 + k <= |s1| && 0 <= a2 && a2 + k <= |s2| &&
    s1[a1..a1 + k] == s2[a2..a2 + k]
  }

  /** Some character is shared by the first row or the first column of the
      table: `s2[0]` occurs in `s1`, or `s1[0]` occurs in `s2`. */
  ghost predicate BoundaryMatch(s1: string, s2: string)
  {
    |s1| > 0 && |s2| > 0 && (s2[0] in s1 || s1[0] in s2)
  }

  /** The length of the longest common suffix of `s1[..i + 1]` and `s2[..j + 1]`:
      the value the table holds at row `i`, column `j`. */
  function CommonSuffix(s1: string, s2: string, i: nat, j: nat): (r: nat)
    requires i < |s1| && j < |s2|
    ensures r <= i + 1 && r <= j + 1
    ensures r > 0 <==> s1[i] == s2[j]
  {
    if s1[i] != s2[j] then 0
    else if i == 0 || j == 0 then 1
    else CommonSuffix(s1, s2, i - 1, j - 1) + 1
  }

  /** Two non-empty strings of equal length are equal exactly when their last
      characters and the rest agree. */
  lemma LastSplit(x: string, y: string)
    requires |x| == |y| > 0
    ensures x == y <==> x[..|x| - 1] == y[..|y| - 1] && x[|x| - 1] == y[|y| - 1]
  {
    if x[..|x| - 1] == y[..|y| - 1] && x[|x| - 1] == y[|y| - 1] {
      assert x == x[..|x| - 1] + [x[|x| - 1]];
      assert y == y[..|y| - 1] + [y[|y| - 1]];
    }
  }

  /** A common run of length `k` ends at `s1[i]` and `s2[j]` exactly when `k`
      is at most their common-suffix length. */
  lemma {:induction false} CommonSuffixIsLongest(s1: string, s2: string, i: nat, j: nat, k: nat)
    requires i < |s1| && j < |s2|
    ensures IsCommonRun(s1, s2, i + 1 - k, j + 1 - k, k) <==> k <= CommonSuffix(s1, s2, i, j)
    decreases i
  {
    if 0 < k <= i + 1 && k <= j + 1 {
      var x, y := s1[i + 1 - k..i + 1], s2[j + 1 - k..j + 1];
      assert x[..k - 1] == s1[i + 1 - k..i] && y[..k - 1] == s2[j + 1 - k..j];
      LastSplit(x, y);
      if k > 1 && s1[i] == s2[j] {
        CommonSuffixIsLongest(s1, s2, i - 1, j - 1, k - 1);
      }
    } else if k == 0 {
      assert s1[i + 1..i + 1] == s2[j + 1..j + 1];
    }
  }

  /** A common run of length `k >= 1` makes the common-suffix length at its last cell at least `k`. */
  lemma CommonRunCell(s1: string, s2: string, a1: int, a2: int, k: int)
    requires IsCommonRun(s1, s2, a1, a2, k) && k > 0
    ensures k <= CommonSuffix(s1, s2, a1 + k - 1, a2 + k - 1)
  {
    CommonSuffixIsLongest(s1, s2, a1 + k - 1, a2 + k - 1, k);
  }

  /** The largest common-suffix length in row `r` of the table, columns 1 to `j - 1`. */
  ghost function RowMax(s1: string, s2: string, r: nat, j: nat): (best: nat)
    requires r < |s1| && j <= |s2|
    decreases j
  {
    if j <= 1 then 0
    else
      var best := RowMax(s1, s2, r, j - 1);
      var cell := CommonSuffix(s1, s2, r, j - 1);
      if cell > best then cell else best
  }

  /** The largest common-suffix length in rows 1 to `i - 1`, columns 1 to
      `|s2| - 1`: the part of the table the nested loops fill before row `i`. */
  ghost function Prior(s1: string, s2: string, i: nat): (best: nat)
    requires i <= |s1|
    decreases i
  {
    if i <= 1 then 0
    else
      var best := Prior(s1, s2, i - 1);
      var row := RowMax(s1, s2, i - 1, |s2|);
      if row > best then row else best
  }

  /** `RowMax` bounds every cell it covers. */
  lemma {:induction false} RowMaxBound(s1: string, s2: string, r: nat, j: nat, c: nat)
    requires r < |s1| && j <= |s2| && 1 <= c < j
    ensures CommonSuffix(s1, s2, r, c) <= RowMax(s1, s2, r, j)
    decreases j
  {
    if c < j - 1 {
      RowMaxBound(s1, s2, r, j - 1, c);
    }
  }

  /** `Prior` bounds every interior cell above row `i`. */
  lemma {:induction false} PriorBound(s1: string, s2: string, i: nat, r: nat, c: nat)
    requires i <= |s1| && 1 <= r < i && 1 <= c < |s2|
    ensures CommonSuffix(s1, s2, r, c) <= Prior(s1, s2, i)
    decreases i
  {
    if r < i - 1 {
      PriorBound(s1, s2, i - 1, r, c);
    } else {
      RowMaxBound(s1, s2, r, |s2|, c);
    }
  }

  /** A cell of the first row or column holds at most 1, and 1 only on a boundary match. */
  lemma BoundaryCell(s1: string, s2: string, r: nat, c: nat)
    requires r < |s1| && c < |s2| && (r == 0 || c == 0)
    ensures CommonSuffix(s1, s2, r, c) <= 1
    ensures CommonSuffix(s1, s2, r, c) == 1 ==> BoundaryMatch(s1, s2)
  {
    if s1[r] == s2[c] {
      if c == 0 {
        assert s1[r] in s1;
      } else {
        assert s2[c] in s2;
      }
    }
  }

  /** A cell above row `i` holds at most `Prior(i)`, unless it lies in the first
      row or column, where it holds at most 1, and 1 only on a boundary match. */
  lemma CellBound(s1: string, s2: string, i: nat, r: nat, c: nat)
    requires r < i <= |s1| && c < |s2|
    ensures CommonSuffix(s1, s2, r, c) <= Prior(s1, s2, i) ||
            (CommonSuffix(s1, s2, r, c) <= 1 && (CommonSuffix(s1, s2, r, c) == 1 ==> BoundaryMatch(s1, s2)))
  {
    if r == 0 || c == 0 {
      BoundaryCell(s1, s2, r, c);
    } else {
      PriorBound(s1, s2, i, r, c);
    }
  }

  /** The largest value of the cells the nested loops have filled by row `i`,
      column `j`, leaving out the first row and column. */
  ghost function Filled(s1: string, s2: string, i: nat, j: nat): (best: nat)
    requires i <= |s1| && j <= |s2|
  {
    if i < |s1| then
      var row := RowMax(s1, s2, i, j);
      if row > Prior(s1, s2, i) then row else Prior(s1, s2, i)
    else Prior(s1, s2, i)
  }

  /** State of the nested loops at row `i`, column `j`: `base` is the maximum of
      the first row and column, 1 exactly when they hold a match; while
      `posEnd` is -1, no filled cell exceeds `base` and `max` is `base`;
      otherwise `max` is the largest filled cell, exceeds `base`, is reached at
      row `posEnd`, column `colEnd`, and at no interior cell above row `posEnd`. */
  ghost predicate ScanState(s1: string, s2: string, i: nat, j: nat, base: int, max: int, posEnd: int, colEnd: int)
  {
    0 < |s1| && 0 < |s2| && 1 <= i <= |s1| && 1 <= j <= |s2| &&
    (base == 1 <==> BoundaryMatch(s1, s2)) && (base == 0 || base == 1) &&
    (posEnd == -1 ==> max == base && Filled(s1, s2, i, j) <= base) &&
    (posEnd != -1 ==>
       max == Filled(s1, s2, i, j) && base < max &&
       0 < posEnd < |s1| && 0 < colEnd < |s2| && (posEnd < i || (posEnd == i && colEnd < j)) &&
       CommonSuffix(s1, s2, posEnd, colEnd) == max && Prior(s1, s2, posEnd) < max)
  }

  /** Before the nested loops, nothing beyond the first row and column is filled. */
  lemma BoundaryState(s1: string, s2: string, base: int)
    requires 0 < |s1| && 0 < |s2|
    requires base == (if BoundaryMatch(s1, s2) then 1 else 0)
    ensures ScanState(s1, s2, 1, 1, base, base, -1, 0)
  {
  }

  /** Filling the cell at row `i`, column `j`: a new strict maximum moves
      `posEnd` to row `i`; otherwise nothing changes. */
  lemma CellStep(s1: string, s2: string, i: nat, j: nat, base: int, max: int, posEnd: int, colEnd: int)
    requires 0 < i < |s1| && 0 < j < |s2|
    requires ScanState(s1, s2, i, j, base, max, posEnd, colEnd)
    ensures CommonSuffix(s1, s2, i, j) > max ==>
              ScanState(s1, s2, i, j + 1, base, CommonSuffix(s1, s2, i, j), i, j)
    ensures CommonSuffix(s1, s2, i, j) <= max ==>
              ScanState(s1, s2, i, j + 1, base, max, posEnd, colEnd)
  {
  }

  /** A finished row `i` is the start of row `i + 1`. */
  lemma RowStep(s1: string, s2: string, i: nat, base: int, max: int, posEnd: int, colEnd: int)
    requires 0 < i < |s1|
    requires ScanState(s1, s2, i, |s2|, base, max, posEnd, colEnd)
    ensures ScanState(s1, s2, i + 1, 1, base, max, posEnd, colEnd)
  {
  }

  /** When all cells are filled and `posEnd` was set, the run ending at row
      `posEnd`, column `colEnd` is a common run of length `max`, and no common
      run of that length starts earlier in `s1`. */
  lemma ConclusionFound(s1: string, s2: string, base: int, max: int, posEnd: int, colEnd: int)
    requires ScanState(s1, s2, |s1|, 1, base, max, posEnd, colEnd)
    requires posEnd != -1
    ensures 0 <= posEnd - max + 1 && IsCommonRun(s1, s2, posEnd - max + 1, colEnd - max + 1, max)
    ensures forall b1, b2 :: b1 < posEnd - max + 1 ==> !IsCommonRun(s1, s2, b1, b2, max)
    ensures max == 1 ==> !BoundaryMatch(s1, s2)
  {
    CommonSuffixIsLongest(s1, s2, posEnd, colEnd, max);
    forall b1, b2 | b1 < posEnd - max + 1 && IsCommonRun(s1, s2, b1, b2, max) ensures false {
      CommonRunCell(s1, s2, b1, b2, max);
      CellBound(s1, s2, posEnd, b1 + max - 1, b2 + max - 1);
    }
  }

  /** When all cells are filled, no common run is longer than the one found
      (of length 0 when `posEnd` is -1), except a single character of the
      first row or column when nothing was found beyond it. */
  lemma ConclusionLongest(s1: string, s2: string, base: int, max: int, posEnd: int, colEnd: int)
    requires ScanState(s1, s2, |s1|, 1, base, max, posEnd, colEnd)
    ensures forall a1, a2, k :: IsCommonRun(s1, s2, a1, a2, k) ==>
              k <= (if posEnd == -1 then 0 else max) || (k == 1 && posEnd == -1 && BoundaryMatch(s1, s2))
  {
    forall a1, a2, k | IsCommonRun(s1, s2, a1, a2, k) && k > 0
      ensures k <= (if posEnd == -1 then 0 else max) || (k == 1 && posEnd == -1 && BoundaryMatch(s1, s2))
    {
      CommonRunCell(s1, s2, a1, a2, k);
      CellBound(s1, s2, |s1|, a1 + k - 1, a2 + k - 1);
    }
  }

  /** One row of the nested loops of main.cpp, `longestSubstring`: fills row
      `i` of the table from row `i - 1` and keeps the running maximum. Only
      the cells of row `i` from column 1 on are written. */
  method FillRow(s1: string, s2: string, lcs: array2<int>, i: nat, ghost base: int, max0: int, posEnd0: int, ghost colEnd0: int)
    returns (max: int, posEnd: int, ghost colEnd: int)
    requires 0 < i < |s1| == lcs.Length0 && |s2| == lcs.Length1
    requires ScanState(s1, s2, i, 1, base, max0, posEnd0, colEnd0)
    requires forall r, c {:trigger lcs[r, c]} :: 0 <= r < |s1| && 0 <= c < |s2| && (r == i - 1 || (i <= r && c == 0)) ==> lcs[r, c] == CommonSuffix(s1, s2, r, c)
    modifies lcs
    ensures ScanState(s1, s2, i, |s2|, base, max, posEnd, colEnd)
    ensures forall r, c {:trigger lcs[r, c]} :: 0 <= r < |s1| && 0 <= c < |s2| && (r == i || (i < r && c == 0)) ==> lcs[r, c] == CommonSuffix(s1, s2, r, c)
    ensures forall r, c {:trigger lcs[r, c]} :: 0 <= r < |s1| && 0 <= c < |s2| && (r != i || c == 0) ==> lcs[r, c] == old(lcs[r, c])
  {
    max, posEnd, colEnd := max0, posEnd0, colEnd0;
    var m := |s2|;
    for j := 1 to m
      invariant ScanState(s1, s2, i, j, base, max, posEnd, colEnd)
      invariant forall r, c {:trigger lcs[r, c]} :: 0 <= r < |s1| && 0 <= c < m && (r == i - 1 || (r == i && c < j) || (i <= r && c == 0)) ==> lcs[r, c] == CommonSuffix(s1, s2, r, c)
      invariant forall r, c {:trigger lcs[r, c]} :: 0 <= r < |s1| && 0 <= c < m && (r != i || c == 0 || j <= c) ==> lcs[r, c] == old(lcs[r, c])
    {
      CellStep(s1, s2, i, j, base, max, posEnd, colEnd);
      if s1[i] == s2[j] {
        lcs[i, j] := lcs[i - 1, j - 1] + 1;
        assert lcs[i, j] == CommonSuffix(s1, s2, i, j);
        if lcs[i, j] > max {
          max := lcs[i, j];
          posEnd := i;
          colEnd := j;
        }
      } else {
        lcs[i, j] := 0;
      }
    }
  }

  /** The longest common substring of `s1` and `s2` (main.cpp,
      `longestSubstring`), taken from `s1`: of several longest ones, the one
      that starts first in `s1`. A longest common substring of one character
      found only in the first row or column of the table is not reported. */
  method LongestSubstring(s1: string, s2: string) returns (output: string)
    ensures output != [] ==>
              exists a1, a2 :: IsCommonRun(s1, s2, a1, a2, |output|) && output == s1[a1..a1 + |output|] &&
                forall b1, b2 :: b1 < a1 ==> !IsCommonRun(s1, s2, b1, b2, |output|)
    ensures forall a1, a2, k :: IsCommonRun(s1, s2, a1, a2, k) ==>
              k <= |output| || (k == 1 && output == [] && BoundaryMatch(s1, s2))
    ensures |output| == 1 ==> !BoundaryMatch(s1, s2)
  {
    var n, m := |s1|, |s2|;
    if n == 0 || m == 0 {
      return "";
    }
    var posEnd := -1;
    var max := 0;
    var lcs := new int[n, m]((_, _) => 0);

    for i := 0 to n
      invariant max == 0 || max == 1
      invariant max == 1 <==> exists r :: 0 <= r < i && s1[r] == s2[0]
      invariant forall r :: 0 <= r < i ==> lcs[r, 0] == CommonSuffix(s1, s2, r, 0)
    {
      if s1[i] == s2[0] {
        lcs[i, 0] := 1;
        max := 1;
      } else {
        lcs[i, 0] := 0;
      }
    }
    assert max == 1 <==> s2[0] in s1;

    ghost var columnMax := max;
    for j := 0 to m
      invariant max == 0 || max == 1
      invariant max == 1 <==> columnMax == 1 || exists c :: 0 <= c < j && s1[0] == s2[c]
      invariant forall r :: 0 <= r < n ==> lcs[r, 0] == CommonSuffix(s1, s2, r, 0)
      invariant forall c :: 0 <= c < j ==> lcs[0, c] == CommonSuffix(s1, s2, 0, c)
    {
      if s1[0] == s2[j] {
        lcs[0, j] := 1;
        max := 1;
      } else {
        lcs[0, j] := 0;
      }
    }
    assert max == 1 <==> BoundaryMatch(s1, s2);

    ghost var base := max;
    ghost var colEnd := 0;
    BoundaryState(s1, s2, base);
    for i := 1 to n
      invariant ScanState(s1, s2, i, 1, base, max, posEnd, colEnd)
      invariant forall r, c {:trigger lcs[r, c]} :: 0 <= r < n && 0 <= c < m && (r == i - 1 || (i <= r && c == 0)) ==> lcs[r, c] == CommonSuffix(s1, s2, r, c)
    {
      max, posEnd, colEnd := FillRow(s1, s2, lcs, i, base, max, posEnd, colEnd);
      RowStep(s1, s2, i, base, max, posEnd, colEnd);
    }

    ConclusionLongest(s1, s2, base, max, posEnd, colEnd);
    if posEnd != -1 {
      ConclusionFound(s1, s2, base, max, posEnd, colEnd);
      return s1[posEnd - max + 1..posEnd + 1];
    }
    return "";
  }

  /** `LongestSubstring` as written loses a longest common substring of one
      character found in the first row or column: on "ab" and "ba", whose
      longest common substrings are "a" and "b", every result its contract
      allows is empty. */
  lemma BoundaryOnlyMatchLost(output: string)
    requires output != [] ==> exists a1, a2 :: IsCommonRun("ab", "ba", a1, a2, |output|)
    requires |output| == 1 ==> !BoundaryMatch("ab", "ba")
    ensures IsCommonRun("ab", "ba", 0, 1, 1)
    ensures output == ""
  {
    assert "ab"[0..1] == "ba"[1..2];
    assert "ba"[0] in "ab";
  }

  /** `LongestSubstring` with the boundary matches recorded as well: the
      first row and column set the end row of the result as the other cells
      do, so a longest common substring of one character is reported too.
      The result is a longest common substring of `s1` and `s2`, taken from
      `s1`, and it is empty only when they share no character. */
  method LongestSubstringFixed(s1: string, s2: string) returns (output: string)
    ensures output != [] ==>
              exists a1, a2 :: IsCommonRun(s1, s2, a1, a2, |output|) && output == s1[a1..a1 + |output|]
    ensures forall a1, a2, k :: IsCommonRun(s1, s2, a1, a2, k) ==> k <= |output|
  {
    var n, m := |s1|, |s2|;
    if n == 0 || m == 0 {
      return "";
    }
    var posEnd := -1;
    var boundaryEnd := -1;
    ghost var boundaryCol := 0;
    var max := 0;
    var lcs := new int[n, m]((_, _) => 0);

    for i := 0 to n
      invariant max == 0 || max == 1
      invariant max == 1 <==> exists r :: 0 <= r < i && s1[r] == s2[0]
      invariant max == 1 ==> 0 <= boundaryEnd < n && 0 <= boundaryCol < m && s1[boundaryEnd] == s2[boundaryCol]
      invariant forall r :: 0 <= r < i ==> lcs[r, 0] == CommonSuffix(s1, s2, r, 0)
    {
      if s1[i] == s2[0] {
        lcs[i, 0] := 1;
        max := 1;
        boundaryEnd, boundaryCol := i, 0;
      } else {
        lcs[i, 0] := 0;
      }
    }
    assert max == 1 <==> s2[0] in s1;

    ghost var columnMax := max;
    for j := 0 to m
      invariant max == 0 || max == 1
      invariant max == 1 <==> columnMax == 1 || exists c :: 0 <= c < j && s1[0] == s2[c]
      invariant max == 1 ==> 0 <= boundaryEnd < n && 0 <= boundaryCol < m && s1[boundaryEnd] == s2[boundaryCol]
      invariant forall r :: 0 <= r < n ==> lcs[r, 0] == CommonSuffix(s1, s2, r, 0)
      invariant forall c :: 0 <= c < j ==> lcs[0, c] == CommonSuffix(s1, s2, 0, c)
    {
      if s1[0] == s2[j] {
        lcs[0, j] := 1;
        max := 1;
        boundaryEnd, boundaryCol := 0, j;
      } else {
        lcs[0, j] := 0;
      }
    }
    assert max == 1 <==> BoundaryMatch(s1, s2);

    ghost var base := max;
    ghost var colEnd := 0;
    BoundaryState(s1, s2, base);
    for i := 1 to n
      invariant ScanState(s1, s2, i, 1, base, max, posEnd, colEnd)
      invariant forall r, c {:trigger lcs[r, c]} :: 0 <= r < n && 0 <= c < m && (r == i - 1 || (i <= r && c == 0)) ==> lcs[r, c] == CommonSuffix(s1, s2, r, c)
    {
      max, posEnd, colEnd := FillRow(s1, s2, lcs, i, base, max, posEnd, colEnd);
      RowStep(s1, s2, i, base, max, posEnd, colEnd);
    }

    ConclusionLongest(s1, s2, base, max, posEnd, colEnd);
    if posEnd != -1 {
      ConclusionFound(s1, s2, base, max, posEnd, colEnd);
      return s1[posEnd - max + 1..posEnd + 1];
    }
    if max == 1 {
      assert IsCommonRun(s1, s2, boundaryEnd, boundaryCol, 1);
      return s1[boundaryEnd..boundaryEnd + 1];
    }
    return "";
  }
}
