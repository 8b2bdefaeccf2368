// Manacher's algorithm: the longest palindromic substring of a text, found on
// the text interleaved with a separator so that palindromes of even and of odd
// length both have a centre.

module Manacher {

  /** The separator that `Preprocess` puts around every character. */
  const Sep: char := '#'

  /** `x` reads the same forwards and backwards. */
  ghost predicate IsPalindrome(x: string)
  {
    forall k :: 0 <= k < |x| ==> x[k] == x[|x| - 1 - k]
  }

  /** `w` is `s` with `Sep` before, between and after its characters:
      `Sep` at every even index and `s[k]` at index `2 * k + 1`. */
  ghost predicate IsInterleaving(s: string, w: string)
  {
    |w| == 2 * |s| + 1 &&
    forall k :: 0 <= k < |w| ==> w[k] == if k % 2 == 0 then Sep else s[k / 2]
  }

  /** The characters at distance `d` before and after `c` exist and agree. */
  ghost predicate Mirrored(w: string, c: int, d: int)
  {
    0 <= d <= c && c + d < |w| && w[c - d] == w[c + d]
  }

  /** `w` holds a palindrome of radius `r` around the centre `c`: `w[c - r..c + r + 1]`
      reads the same backwards. */
  ghost predicate IsRadius(w: string, c: int, r: int)
  {
    0 <= r <= c && c + r < |w| && forall d :: 0 <= d <= r ==> Mirrored(w, c, d)
  }

  /** The palindrome of radius `r` around `c` cannot be extended: one of its
      next positions lies outside `w`, or the two next characters differ. */
  ghost predicate IsMaximalRadius(w: string, c: int, r: int)
  {
    IsRadius(w, c, r) && (c - r - 1 < 0 || c + r + 1 >= |w| || w[c - r - 1] != w[c + r + 1])
  }

  /** The characters at distance `d` on either side of the centre of a palindrome agree. */
  lemma RadiusMirror(w: string, c: int, r: int, d: int)
    requires IsRadius(w, c, r) && -r <= d <= r
    ensures w[c - d] == w[c + d]
  {
    if d >= 0 {
      assert Mirrored(w, c, d);
    } else {
      assert Mirrored(w, c, -d);
    }
  }

  /** A palindrome whose two next characters agree grows by one on each side. */
  lemma RadiusExtend(w: string, c: int, r: int)
    requires IsRadius(w, c, r) && 0 <= c - r - 1 && c + r + 1 < |w| && w[c - r - 1] == w[c + r + 1]
    ensures IsRadius(w, c, r + 1)
  {
    forall d | 0 <= d <= r + 1 ensures Mirrored(w, c, d) {
      if d <= r {
        assert Mirrored(w, c, d);
      }
    }
  }

  /** Inside the palindrome of radius `rc` around `C`, the centre `i` has at
      least the radius of its mirror centre `2 * C - i`, cut off at the right
      end `C + rc` of the enclosing palindrome. */
  lemma MirrorRadius(w: string, C: int, rc: int, i: int, pm: int)
    requires IsRadius(w, C, rc) && C < i < C + rc && IsRadius(w, 2 * C - i, pm)
    ensures IsRadius(w, i, if C + rc - i < pm then C + rc - i else pm)
  {
    var r := if C + rc - i < pm then C + rc - i else pm;
    forall d | 0 <= d <= r ensures Mirrored(w, i, d) {
      RadiusMirror(w, C, rc, C - i + d);
      RadiusMirror(w, 2 * C - i, pm, d);
      RadiusMirror(w, C, rc, i + d - C);
    }
  }

  /** A maximal radius is the largest radius around its centre. */
  lemma MaximalRadiusIsGreatest(w: string, c: int, r: int, r': int)
    requires IsMaximalRadius(w, c, r) && IsRadius(w, c, r')
    ensures r' <= r
  {
    if r' > r {
      RadiusMirror(w, c, r', r + 1);
    }
  }

  /** In an interleaving, a maximal palindrome starts and ends on a separator. */
  lemma MaximalRadiusEven(s: string, w: string, c: int, r: int)
    requires IsInterleaving(s, w) && IsMaximalRadius(w, c, r)
    ensures (c - r) % 2 == 0
  {
  }

  /** A palindrome `s[a..b]` of the text is a palindrome of radius `b - a`
      around `a + b` in its interleaving. */
  lemma PalindromeToRadius(s: string, w: string, a: int, b: int)
    requires IsInterleaving(s, w) && 0 <= a <= b <= |s| && IsPalindrome(s[a..b])
    ensures IsRadius(w, a + b, b - a)
  {
    var c := a + b;
    forall d | 0 <= d <= b - a ensures Mirrored(w, c, d) {
      if (a + b - d) % 2 == 1 {
        var u := (a + b - d) / 2;
        assert w[a + b - d] == s[u];
        assert w[a + b + d] == s[a + b - 1 - u];
        assert s[a..b][u - a] == s[a..b][(b - a) - 1 - (u - a)];
      }
    }
  }

  /** A palindrome of radius `r` around `c` that starts on a separator is the
      palindrome `s[(c - r) / 2..(c - r) / 2 + r]` of the text. */
  lemma RadiusToPalindrome(s: string, w: string, c: int, r: int)
    requires IsInterleaving(s, w) && IsRadius(w, c, r) && (c - r) % 2 == 0
    ensures (c - r) / 2 + r <= |s| && IsPalindrome(s[(c - r) / 2..(c - r) / 2 + r])
  {
    var a := (c - r) / 2;
    var x := s[a..a + r];
    forall u | 0 <= u < |x| ensures x[u] == x[|x| - 1 - u] {
      var d := r - 2 * u - 1;
      RadiusMirror(w, c, r, d);
      assert w[c - d] == s[a + u];
      assert w[c + d] == s[a + r - 1 - u];
    }
  }

  /** `s` with a separator before, between and after its characters
      (main.cpp, `preprocess`). */
  method Preprocess(s: string) returns (modified: string)
    ensures IsInterleaving(s, modified)
  {
    modified := [Sep];
    for i := 0 to |s|
      invariant |modified| == 2 * i + 1
      invariant forall k :: 0 <= k < |modified| ==> modified[k] == if k % 2 == 0 then Sep else s[k / 2]
    {
      modified := modified + [s[i]];
      modified := modified + [Sep];
    }
  }

  /** Every centre below `i` holds its maximal radius in `radii`. */
  ghost predicate MaximalBelow(w: string, radii: seq<nat>, i: nat)
    decreases i
  {
    i <= |radii| && (i == 0 || (MaximalBelow(w, radii, i - 1) && IsMaximalRadius(w, i - 1, radii[i - 1])))
  }

  /** `MaximalBelow` gives the maximal radius of each centre below `i`. */
  lemma {:induction false} MaximalBelowAt(w: string, radii: seq<nat>, i: nat, k: nat)
    requires MaximalBelow(w, radii, i) && k < i
    ensures IsMaximalRadius(w, k, radii[k])
    decreases i
  {
    if k < i - 1 {
      MaximalBelowAt(w, radii, i - 1, k);
    }
  }

  /** Changing the radius of a centre at or above `i` keeps `MaximalBelow`. */
  lemma {:induction false} MaximalBelowUpdate(w: string, radii: seq<nat>, i: nat, j: nat, v: nat)
    requires MaximalBelow(w, radii, i) && i <= j < |radii|
    ensures MaximalBelow(w, radii[j := v], i)
    decreases i
  {
    if i > 0 {
      MaximalBelowUpdate(w, radii, i - 1, j, v);
    }
  }

  /** State of Manacher's main loop before centre `i`: every centre below `i`
      holds its maximal radius, the others still hold 0, and `C`, `R` are the
      centre and right end of a palindrome already found. */
  ghost predicate ScanState(w: string, radii: seq<nat>, i: nat, C: int, R: int)
  {
    |radii| == |w| && 0 <= C <= i <= |w| && (C < i || i == 0) && C < |w| &&
    IsRadius(w, C, radii[C]) && R == C + radii[C] &&
    MaximalBelow(w, radii, i) &&
    (forall k :: i <= k < |w| ==> radii[k] == 0)
  }

  /** State of the expansion around centre `i`: `radii[i]` is a radius around
      `i`, and the rest is as in `ScanState`, with `C`, `R` describing a
      palindrome unless `C` is `i` itself. */
  ghost predicate ExpandState(w: string, radii: seq<nat>, i: nat, C: int, R: int)
  {
    |radii| == |w| && 0 <= C <= i < |w| && (C < i || i == 0) &&
    IsRadius(w, i, radii[i]) && (i == 0 ==> radii[i] == 0) &&
    (C < i ==> IsRadius(w, C, radii[C]) && R == C + radii[C]) && (C == i ==> R == 0) &&
    MaximalBelow(w, radii, i) &&
    (forall k :: i < k < |w| ==> radii[k] == 0)
  }

  /** Seeding step: inside the furthest-reaching palindrome, the radius of the
      mirror centre, cut off at `R`, is a radius around `i`; outside it, 0 is. */
  lemma SeedStep(w: string, radii: seq<nat>, i: nat, C: int, R: int)
    requires ScanState(w, radii, i, C, R) && i < |w|
    ensures i < R ==>
              0 <= 2 * C - i < |w| &&
              ExpandState(w, radii[i := if R - i < radii[2 * C - i] then R - i else radii[2 * C - i]], i, C, R)
    ensures R <= i ==> ExpandState(w, radii, i, C, R)
  {
    if i < R {
      MaximalBelowAt(w, radii, i, 2 * C - i);
      MirrorRadius(w, C, radii[C], i, radii[2 * C - i]);
      MaximalBelowUpdate(w, radii, i, i, if R - i < radii[2 * C - i] then R - i else radii[2 * C - i]);
    }
  }

  /** Expansion step: equal characters on both sides grow the radius around `i` by one. */
  lemma ExpandStep(w: string, radii: seq<nat>, i: nat, C: int, R: int)
    requires ExpandState(w, radii, i, C, R)
    requires i + radii[i] + 1 < |w| && i - radii[i] - 1 >= 0 && w[i + radii[i] + 1] == w[i - radii[i] - 1]
    ensures ExpandState(w, radii[i := radii[i] + 1], i, C, R)
  {
    RadiusExtend(w, i, radii[i]);
    MaximalBelowUpdate(w, radii, i, i, radii[i] + 1);
  }

  /** End of the expansion: the radius around `i` is maximal, and the centre
      and right end move to `i` when its palindrome reaches past `R`. */
  lemma FinishStep(w: string, radii: seq<nat>, i: nat, C: int, R: int)
    requires ExpandState(w, radii, i, C, R)
    requires !(i + radii[i] + 1 < |w| && i - radii[i] - 1 >= 0 && w[i + radii[i] + 1] == w[i - radii[i] - 1])
    ensures i + radii[i] > R ==> ScanState(w, radii, i + 1, i, i + radii[i])
    ensures i + radii[i] <= R ==> ScanState(w, radii, i + 1, C, R)
  {
    assert MaximalBelow(w, radii, i + 1);
  }

  /** The radius array of Manacher's main loop (main.cpp, `manacher`): `P[i]`
      is the maximal palindrome radius around every centre `i` of `w`, found
      with the centre `C` and right end `R` of the palindrome that reaches
      furthest right. */
  method Radii(w: string) returns (radii: seq<nat>)
    requires |w| > 0
    ensures |radii| == |w|
    ensures forall k :: 0 <= k < |w| ==> IsMaximalRadius(w, k, radii[k])
  {
    var n := |w|;
    var P := new nat[n](_ => 0);
    var C: nat, R: nat := 0, 0;
    for i := 0 to n
      invariant ScanState(w, P[..], i, C, R)
    {
      ghost var Q := P[..];
      SeedStep(w, Q, i, C, R);
      var mirror := 2 * C - i;
      if i < R {
        P[i] := if R - i < P[mirror] then R - i else P[mirror];
        Q := Q[i := P[i]];
        assert P[..] == Q;
      }
      while i + P[i] + 1 < n && i - P[i] - 1 >= 0 && w[i + P[i] + 1] == w[i - P[i] - 1]
        invariant P[..] == Q
        invariant ExpandState(w, Q, i, C, R)
        decreases n - P[i]
      {
        ExpandStep(w, Q, i, C, R);
        P[i] := P[i] + 1;
        Q := Q[i := P[i]];
        assert P[..] == Q;
      }
      FinishStep(w, Q, i, C, R);
      if i + P[i] > R {
        C := i;
        R := i + P[i];
      }
    }
    radii := P[..];
    forall k | 0 <= k < |w| ensures IsMaximalRadius(w, k, radii[k]) {
      MaximalBelowAt(w, radii, |w|, k);
    }
  }

  /** The first centre with the largest radius is the leftmost longest palindrome of `s`. */
  lemma FirstLargestRadius(s: string, w: string, radii: seq<nat>, centre: nat)
    requires IsInterleaving(s, w) && |radii| == |w| && centre < |w|
    requires forall k :: 0 <= k < |w| ==> IsMaximalRadius(w, k, radii[k])
    requires forall k :: 0 <= k < |w| ==> radii[k] <= radii[centre]
    requires forall k :: 0 <= k < centre ==> radii[k] < radii[centre]
    ensures (centre - radii[centre]) % 2 == 0 && 0 <= centre - radii[centre]
    ensures (centre - radii[centre]) / 2 + radii[centre] <= |s|
    ensures IsPalindrome(s[(centre - radii[centre]) / 2..(centre - radii[centre]) / 2 + radii[centre]])
    ensures forall a, b :: 0 <= a <= b <= |s| && IsPalindrome(s[a..b]) ==>
              b - a < radii[centre] || (b - a == radii[centre] && (centre - radii[centre]) / 2 <= a)
  {
    var r := radii[centre];
    MaximalRadiusEven(s, w, centre, r);
    RadiusToPalindrome(s, w, centre, r);
    forall a, b | 0 <= a <= b <= |s| && IsPalindrome(s[a..b])
      ensures b - a < r || (b - a == r && (centre - r) / 2 <= a)
    {
      PalindromeToRadius(s, w, a, b);
      MaximalRadiusIsGreatest(w, a + b, radii[a + b], b - a);
    }
  }

  /** The longest palindromic substring of `s` and its start (main.cpp,
      `manacher`); of several longest ones, the leftmost. */
  method Manacher(s: string) returns (sub: string, start: int)
    ensures 0 <= start && start + |sub| <= |s| && sub == s[start..start + |sub|]
    ensures IsPalindrome(sub)
    ensures forall a, b :: 0 <= a <= b <= |s| && IsPalindrome(s[a..b]) ==>
              b - a < |sub| || (b - a == |sub| && start <= a)
  {
    var modified := Preprocess(s);
    var n := |modified|;
    var P := Radii(modified);

    var maxLen: nat, centerIndex: nat := 0, 0;
    for i := 0 to n
      invariant centerIndex < n && maxLen == P[centerIndex]
      invariant centerIndex < i || centerIndex == 0
      invariant forall k :: 0 <= k < i ==> P[k] <= maxLen
      invariant forall k :: 0 <= k < centerIndex ==> P[k] < maxLen
    {
      if P[i] > maxLen {
        maxLen := P[i];
        centerIndex := i;
      }
    }

    FirstLargestRadius(s, modified, P, centerIndex);
    start := (centerIndex - maxLen) / 2;
    sub := s[start..start + maxLen];
  }
}
