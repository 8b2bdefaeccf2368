// The failure table of the Knuth-Morris-Pratt algorithm: for every position of
// a pattern, the length of the longest proper prefix of the pattern up to that
// position that is also a suffix of it.

module Lps {

  /** `k` is the length of a border of `p[..q]`: a proper prefix of `p[..q]`
      that is also a suffix of it. */
  ghost predicate IsBorder(p: string, q: nat, k: nat)
  {
    k < q <= |p| && p[..k] == p[q - k..q]
  }

  /** No border of `p[..q]` is longer than `bound`. */
  ghost predicate BordersAtMost(p: string, q: nat, bound: nat)
  {
    forall k: nat :: IsBorder(p, q, k) ==> k <= bound
  }

  /** `k` is the length of the longest border of `p[..q]`. */
  ghost predicate IsLongestBorder(p: string, q: nat, k: nat)
  {
    IsBorder(p, q, k) && BordersAtMost(p, q, k)
  }

  /** A border that is followed by the character that follows `p[..q]` grows by one. */
  lemma BorderExtend(p: string, q: nat, k: nat)
    requires IsBorder(p, q, k) && q < |p| && p[k] == p[q]
    ensures IsBorder(p, q + 1, k + 1)
  {
    assert p[..k + 1] == p[..k] + [p[k]];
    assert p[q - k..q + 1] == p[q - k..q] + [p[q]];
  }

  /** Every non-empty border of `p[..q + 1]` is a border of `p[..q]` extended by `p[q]`. */
  lemma BorderShrink(p: string, q: nat, k: nat)
    requires IsBorder(p, q + 1, k + 1)
    ensures IsBorder(p, q, k) && p[k] == p[q]
  {
    assert p[..k] == p[..k + 1][..k];
    assert p[q - k..q] == p[q - k..q + 1][..k];
    assert p[k] == p[..k + 1][k];
    assert p[q] == p[q - k..q + 1][k];
  }

  /** A border of a border of `p[..q]` is a border of `p[..q]`. */
  lemma BorderOfBorder(p: string, q: nat, b: nat, c: nat)
    requires IsBorder(p, q, b) && IsBorder(p, b, c)
    ensures IsBorder(p, q, c)
  {
    assert p[b - c..b] == p[..b][b - c..];
    assert p[q - c..q] == p[q - b..q][b - c..];
  }

  /** Of two borders of `p[..q]`, the shorter is a border of the longer. */
  lemma ShorterBorderOfLonger(p: string, q: nat, b: nat, c: nat)
    requires IsBorder(p, q, b) && IsBorder(p, q, c) && c < b
    ensures IsBorder(p, b, c)
  {
    assert p[..c] == p[..b][..c];
    assert p[b - c..b] == p[..b][b - c..];
    assert p[q - c..q] == p[q - b..q][b - c..];
  }

  /** Matching step: a border of `p[..i]` that `p[i]` extends is the longest border of `p[..i + 1]`,
      and no border of `p[..i + 2]` is more than one longer. */
  lemma MatchStep(p: string, i: nat, len: nat)
    requires IsBorder(p, i, len) && i < |p| && p[i] == p[len]
    requires BordersAtMost(p, i + 1, len + 1)
    ensures IsLongestBorder(p, i + 1, len + 1)
    ensures i + 1 < |p| ==> BordersAtMost(p, i + 2, len + 2)
  {
    BorderExtend(p, i, len);
    if i + 1 < |p| {
      var q := i + 2;
      forall k: nat | IsBorder(p, q, k) ensures k <= len + 2 {
        if k > 0 {
          BorderShrink(p, i + 1, k - 1);
        }
      }
    }
  }

  /** Mismatch with the empty candidate: `p[..i + 1]` has no non-empty border. */
  lemma EmptyStep(p: string, i: nat)
    requires 0 < i < |p| && p[i] != p[0]
    requires BordersAtMost(p, i + 1, 1)
    ensures IsLongestBorder(p, i + 1, 0)
    ensures i + 1 < |p| ==> BordersAtMost(p, i + 2, 1)
  {
    var q := i + 1;
    forall k: nat | IsBorder(p, q, k) ensures k == 0 {
      if k > 0 {
        BorderShrink(p, i, k - 1);
      }
    }
    if i + 1 < |p| {
      var q' := i + 2;
      forall k: nat | IsBorder(p, q', k) ensures k <= 1 {
        if k > 0 {
          BorderShrink(p, i + 1, k - 1);
        }
      }
    }
  }

  /** Fallback step: when `p[i]` does not extend the border `len`, the next
      candidate is the longest border `b` of `p[..len]`, and no border of
      `p[..i + 1]` is lost by skipping the lengths between `b` and `len`. */
  lemma FallbackStep(p: string, i: nat, len: nat, b: nat)
    requires IsBorder(p, i, len) && 0 < len && i < |p| && p[i] != p[len]
    requires BordersAtMost(p, i + 1, len + 1)
    requires IsLongestBorder(p, len, b)
    ensures IsBorder(p, i, b)
    ensures BordersAtMost(p, i + 1, b + 1)
  {
    BorderOfBorder(p, i, len, b);
    var q := i + 1;
    forall k: nat | IsBorder(p, q, k) ensures k <= b + 1 {
      if k > 0 {
        BorderShrink(p, i, k - 1);
        if k - 1 < len {
          ShorterBorderOfLonger(p, i, len, k - 1);
        }
      }
    }
  }

  /** `t[q]` is the length of the longest border of `p[..q + 1]` for every
      position `q < i` of `p`. */
  ghost predicate LongestBordersBelow(p: string, t: seq<nat>, i: nat)
    decreases i
  {
    |t| == |p| &&
    (i == 0 || (LongestBordersBelow(p, t, i - 1) && (i - 1 < |p| ==> IsLongestBorder(p, i, t[i - 1]))))
  }

  /** `LongestBordersBelow` gives the longest border for each position below `i`. */
  lemma {:induction false} LongestBordersBelowAt(p: string, t: seq<nat>, i: nat, q: nat)
    requires LongestBordersBelow(p, t, i) && q < i && q < |p|
    ensures IsLongestBorder(p, q + 1, t[q])
    decreases i
  {
    if q < i - 1 {
      LongestBordersBelowAt(p, t, i - 1, q);
    }
  }

  /** Storing the longest border of `p[..i + 1]` at position `i` extends `LongestBordersBelow`. */
  lemma {:induction false} LongestBordersBelowExtend(p: string, t: seq<nat>, i: nat, v: nat)
    requires LongestBordersBelow(p, t, i) && i < |p| && IsLongestBorder(p, i + 1, v)
    ensures LongestBordersBelow(p, t[i := v], i + 1)
  {
    LongestBordersBelowUpdate(p, t, i, i, v);
  }

  /** Changing a position at or above `i` keeps `LongestBordersBelow`. */
  lemma {:induction false} LongestBordersBelowUpdate(p: string, t: seq<nat>, i: nat, j: nat, v: nat)
    requires LongestBordersBelow(p, t, i) && i <= j < |t|
    ensures LongestBordersBelow(p, t[j := v], i)
    decreases i
  {
    if i > 0 {
      LongestBordersBelowUpdate(p, t, i - 1, j, v);
    }
  }

  /** State of the loop of main.cpp, `lps`, before position `i` with candidate
      length `len`: `t` holds the longest borders of the positions below `i`,
      `len` is a border of `p[..i]`, and no border of `p[..i + 1]` is longer
      than `len + 1`. */
  ghost predicate LpsState(p: string, t: seq<nat>, i: nat, len: nat)
  {
    (i <= |p| || (|p| == 0 && i == 1)) && len < i &&
    (|p| > 0 ==> IsBorder(p, i, len)) &&
    (i < |p| ==> BordersAtMost(p, i + 1, len + 1)) &&
    LongestBordersBelow(p, t, i)
  }

  /** The loop starts at position 1 with the empty candidate. */
  lemma InitialState(p: string, t: seq<nat>)
    requires |t| == |p| && (|p| > 0 ==> t[0] == 0)
    ensures LpsState(p, t, 1, 0)
  {
    assert LongestBordersBelow(p, t, 0);
    if 1 < |p| {
      forall k: nat | IsBorder(p, 2, k) ensures k <= 1 {
      }
    }
  }

  /** `p[i]` extends the candidate: position `i` gets `len + 1` and both advance. */
  lemma MatchState(p: string, t: seq<nat>, i: nat, len: nat)
    requires LpsState(p, t, i, len) && i < |p| && p[i] == p[len]
    ensures LpsState(p, t[i := len + 1], i + 1, len + 1)
  {
    MatchStep(p, i, len);
    LongestBordersBelowExtend(p, t, i, len + 1);
  }

  /** `p[i]` does not extend the empty candidate: position `i` gets 0 and `i` advances. */
  lemma EmptyState(p: string, t: seq<nat>, i: nat)
    requires LpsState(p, t, i, 0) && i < |p| && p[i] != p[0]
    ensures LpsState(p, t[i := 0], i + 1, 0)
  {
    EmptyStep(p, i);
    LongestBordersBelowExtend(p, t, i, 0);
  }

  /** `p[i]` does not extend a non-empty candidate: the candidate falls back
      to the stored longest border of `p[..len]`, which is shorter. */
  lemma FallbackState(p: string, t: seq<nat>, i: nat, len: nat)
    requires LpsState(p, t, i, len) && i < |p| && 0 < len && p[i] != p[len]
    ensures t[len - 1] < len && LpsState(p, t, i, t[len - 1])
  {
    LongestBordersBelowAt(p, t, i, len - 1);
    FallbackStep(p, i, len, t[len - 1]);
  }

  /** The failure table of `pattern` (main.cpp, `lps`): `table[i]` is the
      length of the longest border of `pattern[..i + 1]`. */
  method ComputeLps(pattern: string) returns (table: seq<nat>)
    ensures |table| == |pattern|
    ensures forall i :: 0 <= i < |pattern| ==> IsLongestBorder(pattern, i + 1, table[i])
    ensures |pattern| > 0 ==> table[0] == 0
    ensures forall i :: 0 <= i < |pattern| ==> table[i] <= i
  {
    var n := |pattern|;
    var lpsv := new nat[n](_ => 0);
    ghost var t := lpsv[..];
    var len: nat := 0;
    var i: nat := 1;
    InitialState(pattern, t);
    while i < n
      invariant lpsv[..] == t && LpsState(pattern, t, i, len)
      decreases n - i, len
    {
      if pattern[i] == pattern[len] {
        MatchState(pattern, t, i, len);
        len := len + 1;
        lpsv[i] := len;
        t := t[i := len];
        i := i + 1;
      } else if len == 0 {
        EmptyState(pattern, t, i);
        lpsv[i] := 0;
        t := t[i := 0];
        i := i + 1;
      } else {
        FallbackState(pattern, t, i, len);
        len := lpsv[len - 1];
      }
    }
    table := lpsv[..];
    forall q | 0 <= q < n ensures IsLongestBorder(pattern, q + 1, table[q]) {
      LongestBordersBelowAt(pattern, table, i, q);
    }
  }
}
