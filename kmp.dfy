// Knuth-Morris-Pratt search: every start offset of a pattern in a text,
// overlapping occurrences included.

module Kmp {
  import opened Lps

  /** `pattern` occurs in `text` starting at offset `o`. */
  ghost predicate IsOccurrence(text: string, pattern: string, o: int)
  {
    0 <= o && o + |pattern| <= |text| && text[o..o + |pattern|] == pattern
  }

  /** `text[..i]` ends with the first `j` characters of `pattern`. */
  ghost predicate PartialMatch(text: string, pattern: string, i: int, j: int)
  {
    0 <= j <= |pattern| && j <= i <= |text| && pattern[..j] == text[i - j..i]
  }

  /** The first `i - o` characters of an occurrence at `o` are a prefix of the pattern. */
  lemma OccurrencePrefix(text: string, pattern: string, o: int, i: int)
    requires IsOccurrence(text, pattern, o) && o <= i <= o + |pattern|
    ensures pattern[..i - o] == text[o..i]
  {
    assert text[o..i] == text[o..o + |pattern|][..i - o];
  }

  /** A shorter partial match that ends where a partial match of length `j`
      ends is a border of `pattern[..j]`. */
  lemma NestedMatchIsBorder(text: string, pattern: string, i: int, j: nat, k: nat)
    requires j <= |pattern| && j <= i <= |text| && k < j
    requires pattern[..j] == text[i - j..i] && pattern[..k] == text[i - k..i]
    ensures IsBorder(pattern, j, k)
  {
    assert text[i - k..i] == text[i - j..i][j - k..];
  }

  /** A border of a partial match of length `j` is itself a partial match. */
  lemma BorderIsMatch(text: string, pattern: string, i: int, j: nat, b: nat)
    requires j <= |pattern| && j <= i <= |text| && pattern[..j] == text[i - j..i]
    requires IsBorder(pattern, j, b)
    ensures pattern[..b] == text[i - b..i]
  {
    assert pattern[..b] == pattern[..j][..b];
    assert text[i - b..i] == text[i - j..i][j - b..];
  }

  /** A partial match of length `j` followed by a matching character is one longer. */
  lemma MatchExtend(text: string, pattern: string, i: int, j: nat)
    requires j < |pattern| && j <= i < |text| && pattern[..j] == text[i - j..i]
    requires pattern[j] == text[i]
    ensures pattern[..j + 1] == text[i - j..i + 1]
  {
    assert pattern[..j + 1] == pattern[..j] + [pattern[j]];
    assert text[i - j..i + 1] == text[i - j..i] + [text[i]];
  }

  /** The offsets of the occurrences of `pattern` in `text` that end by `e`, in ascending order. */
  ghost function OccurrencesUpTo(text: string, pattern: string, e: nat): (offsets: seq<nat>)
  {
    if e == 0 then []
    else OccurrencesUpTo(text, pattern, e - 1) +
         (if IsOccurrence(text, pattern, e - |pattern|) then [e - |pattern|] else [])
  }

  /** `OccurrencesUpTo` holds exactly the occurrences that end by `e`. */
  lemma {:induction false} OccurrencesUpToMembers(text: string, pattern: string, e: nat)
    requires |pattern| > 0
    ensures forall o: int :: o in OccurrencesUpTo(text, pattern, e) <==> o + |pattern| <= e && IsOccurrence(text, pattern, o)
  {
    if e > 0 {
      OccurrencesUpToMembers(text, pattern, e - 1);
    }
  }

  /** `OccurrencesUpTo` lists its offsets in strictly ascending order. */
  lemma {:induction false} OccurrencesUpToAscending(text: string, pattern: string, e: nat)
    requires |pattern| > 0
    ensures forall a, b :: 0 <= a < b < |OccurrencesUpTo(text, pattern, e)| ==>
              OccurrencesUpTo(text, pattern, e)[a] < OccurrencesUpTo(text, pattern, e)[b]
  {
    if e > 0 {
      var prev := OccurrencesUpTo(text, pattern, e - 1);
      OccurrencesUpToAscending(text, pattern, e - 1);
      OccurrencesUpToMembers(text, pattern, e - 1);
      if IsOccurrence(text, pattern, e - |pattern|) {
        var r := prev + [e - |pattern|];
        assert OccurrencesUpTo(text, pattern, e) == r;
        forall a | 0 <= a < |prev| ensures prev[a] < e - |pattern| {
          assert prev[a] in prev;
        }
      }
    }
  }

  /** At the end of the text, `OccurrencesUpTo` lists every occurrence, in strictly ascending order. */
  lemma AllOccurrences(text: string, pattern: string)
    requires |pattern| > 0
    ensures forall o: int :: o in OccurrencesUpTo(text, pattern, |text|) <==> IsOccurrence(text, pattern, o)
    ensures forall a, b :: 0 <= a < b < |OccurrencesUpTo(text, pattern, |text|)| ==>
              OccurrencesUpTo(text, pattern, |text|)[a] < OccurrencesUpTo(text, pattern, |text|)[b]
  {
    OccurrencesUpToMembers(text, pattern, |text|);
    OccurrencesUpToAscending(text, pattern, |text|);
  }

  /** No occurrence of `pattern` that starts before the partial match
      `text[i - j..i]` is still in progress at `i`. */
  ghost predicate NoneSkipped(text: string, pattern: string, i: int, j: int)
  {
    forall o :: 0 <= o < i - j && i < o + |pattern| ==> !IsOccurrence(text, pattern, o)
  }

  /** Falling back from a partial match of length `j` to the longest border `b`
      of `pattern[..j]` skips no occurrence that starts in between. */
  lemma BorderSkipsNothing(text: string, pattern: string, i: int, j: nat, b: nat)
    requires PartialMatch(text, pattern, i, j) && IsLongestBorder(pattern, j, b)
    ensures forall o :: i - j < o < i - b && i < o + |pattern| ==> !IsOccurrence(text, pattern, o)
  {
    forall o | i - j < o < i - b && i < o + |pattern| && IsOccurrence(text, pattern, o) ensures false {
      OccurrencePrefix(text, pattern, o, i);
      NestedMatchIsBorder(text, pattern, i, j, i - o);
    }
  }

  /** A matching character that completes the pattern ends an occurrence at `i + 1`. */
  lemma FullMatchRecords(text: string, pattern: string, i: int, j: int)
    requires j + 1 == |pattern| && i < |text| && PartialMatch(text, pattern, i, j)
    requires pattern[j] == text[i]
    ensures PartialMatch(text, pattern, i + 1, |pattern|)
    ensures OccurrencesUpTo(text, pattern, i + 1) == OccurrencesUpTo(text, pattern, i) + [i + 1 - |pattern|]
  {
    MatchExtend(text, pattern, i, j);
    assert pattern[..|pattern|] == pattern;
    assert IsOccurrence(text, pattern, i + 1 - |pattern|);
  }

  /** After a complete match ending at `i`, resuming with the longest border `b`
      of the pattern keeps a partial match and skips no occurrence. */
  lemma FullMatchResumes(text: string, pattern: string, i: int, b: nat)
    requires PartialMatch(text, pattern, i, |pattern|)
    requires NoneSkipped(text, pattern, i - 1, |pattern| - 1)
    requires IsLongestBorder(pattern, |pattern|, b)
    ensures PartialMatch(text, pattern, i, b)
    ensures NoneSkipped(text, pattern, i, b)
  {
    BorderIsMatch(text, pattern, i, |pattern|, b);
    BorderSkipsNothing(text, pattern, i, |pattern|, b);
  }

  /** Step after a matching character that does not complete the pattern:
      the partial match grows, no occurrence ends at `i + 1` and none is skipped. */
  lemma PartialMatchStep(text: string, pattern: string, i: int, j: int)
    requires j + 1 < |pattern| && i < |text| && PartialMatch(text, pattern, i, j)
    requires pattern[j] == text[i] && NoneSkipped(text, pattern, i, j)
    ensures PartialMatch(text, pattern, i + 1, j + 1)
    ensures NoneSkipped(text, pattern, i + 1, j + 1)
    ensures OccurrencesUpTo(text, pattern, i + 1) == OccurrencesUpTo(text, pattern, i)
  {
    MatchExtend(text, pattern, i, j);
  }

  /** Step after a mismatch against the first pattern character: the text
      index advances and no occurrence is skipped. */
  lemma EmptyMismatchStep(text: string, pattern: string, i: int)
    requires 0 < |pattern| && 0 <= i < |text| && text[i] != pattern[0]
    requires NoneSkipped(text, pattern, i, 0)
    ensures NoneSkipped(text, pattern, i + 1, 0)
    ensures OccurrencesUpTo(text, pattern, i + 1) == OccurrencesUpTo(text, pattern, i)
  {
    forall o | 0 <= o <= i && i < o + |pattern| && IsOccurrence(text, pattern, o) ensures false {
      if o == i {
        OccurrencePrefix(text, pattern, o, i + 1);
      }
    }
  }

  /** Step after a mismatch against `pattern[j]`, `j > 0`: falling back to the
      longest border `b` of `pattern[..j]` keeps a partial match and skips no
      occurrence. */
  lemma FallbackMismatchStep(text: string, pattern: string, i: int, j: nat, b: nat)
    requires 0 < j < |pattern| && j <= i < |text| && text[i] != pattern[j]
    requires pattern[..j] == text[i - j..i]
    requires NoneSkipped(text, pattern, i, j)
    requires IsLongestBorder(pattern, j, b)
    ensures PartialMatch(text, pattern, i, b)
    ensures NoneSkipped(text, pattern, i, b)
  {
    BorderIsMatch(text, pattern, i, j, b);
    BorderSkipsNothing(text, pattern, i, j, b);
    if IsOccurrence(text, pattern, i - j) {
      OccurrencePrefix(text, pattern, i - j, i + 1);
    }
  }

  /** All offsets of `pattern` in `text` (main.cpp, `kmp`), in strictly
      ascending order and with overlapping occurrences included. */
  method Kmp(text: string, pattern: string) returns (matches: seq<nat>)
    requires |pattern| > 0
    ensures forall o: int :: o in matches <==> IsOccurrence(text, pattern, o)
    ensures forall a, b :: 0 <= a < b < |matches| ==> matches[a] < matches[b]
  {
    matches := [];
    var lpsv := ComputeLps(pattern);
    var i: nat := 0;
    var j: nat := 0;
    var n := |text|;
    var m := |pattern|;
    while i < n
      invariant 0 <= j < m && j <= i <= n
      invariant PartialMatch(text, pattern, i, j)
      invariant NoneSkipped(text, pattern, i, j)
      invariant matches == OccurrencesUpTo(text, pattern, i)
      decreases n - i, j
    {
      if pattern[j] == text[i] {
        if j + 1 == m {
          FullMatchRecords(text, pattern, i, j);
          FullMatchResumes(text, pattern, i + 1, lpsv[m - 1]);
        } else {
          PartialMatchStep(text, pattern, i, j);
        }
        i := i + 1;
        j := j + 1;
        if j == m {
          matches := matches + [i - m];
          j := lpsv[j - 1];
        }
      } else if j == 0 {
        EmptyMismatchStep(text, pattern, i);
        i := i + 1;
      } else {
        FallbackMismatchStep(text, pattern, i, j, lpsv[j - 1]);
        j := lpsv[j - 1];
      }
    }
    AllOccurrences(text, pattern);
  }
}
