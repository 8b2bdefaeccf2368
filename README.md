# String-analysis engine, modelled in Dafny

The engine in `main.cpp` runs three analyses over a transmission, which is a
line of text:

- **Pattern search.** Every occurrence of a malicious-code pattern, found
  with the Knuth-Morris-Pratt algorithm. The algorithm needs the pattern's
  failure table, and the search reports overlapping occurrences too.
- **Longest palindrome.** The longest palindromic substring, found with
  Manacher's algorithm on the text interleaved with a `#` separator.
- **Longest common substring.** The longest substring shared by two
  transmissions, found by dynamic programming.

Each source function becomes a Dafny method that keeps the source's loops,
index variables, arrays and branches. Its contract states the property the
algorithm promises, written as ghost predicates on the inputs. The four files
are laid out as follows:

- `Lps` has one method, `ComputeLps`. Its loop invariant is the state
  predicate `LpsState`, and one step lemma per branch carries it from one
  iteration to the next.
- `Kmp` has one method, `Kmp`. Its loop carries four plain invariants, and
  each branch calls a step lemma that re-establishes them.
- `Manacher` has three methods:
  - `Preprocess` models `preprocess`, with plain invariants.
  - `Radii` models the main loop of `manacher`. It uses the state predicates
    `ScanState` and `ExpandState` and the step lemmas `SeedStep`, `ExpandStep`
    and `FinishStep`.
  - `Manacher` models the rest of `manacher`. Its maximum scan has plain
    invariants, and it ends with the lemma `FirstLargestRadius`.
- `LongestCommon` has three methods:
  - `LongestSubstring` models `longestSubstring`. Its two boundary loops have
    plain invariants, and its outer loop uses the state predicate `ScanState`.
  - `FillRow` is the inner loop, driven cell by cell by the step lemma
    `CellStep`.
  - `LongestSubstringFixed` is the corrected version described under
    Findings.

| file | module | source function |
|---|---|---|
| `lps.dfy` | `Lps` | `lps`: the failure table |
| `kmp.dfy` | `Kmp` | `kmp`: every start offset of a pattern |
| `manacher.dfy` | `Manacher` | `preprocess` and `manacher`: the longest palindrome |
| `longest_common.dfy` | `LongestCommon` | `longestSubstring`: the longest common substring |

Vocabulary used below:

- A **border** of `p[..q]` is a proper prefix of it that is also a suffix.
- A **radius** `r` around the centre `c` of the interleaved text means that
  `w[c - r..c + r + 1]` is a palindrome.
- A **common run** of length `k` is a pair of equal slices
  `s1[a1..a1 + k] == s2[a2..a2 + k]`.
- A **boundary match** is a shared character in the first row or the first
  column of the table, that is, `s2[0]` occurs in `s1` or `s1[0]` occurs
  in `s2`.

## Model

| member | source | states |
|---|---|---|
| Lps.ComputeLps | main.cpp:8-33 | The table has one entry per pattern character. Entry `i` is the length of the longest border of `pattern[..i + 1]`. Hence entry 0 is 0 and every entry is at most its index. |
| Lps.InitialState | main.cpp:10-12 | The loop's starting values (`i = 1`, `len = 0`, `lpsv[0] = 0`) satisfy the loop state. |
| Lps.MatchState | main.cpp:17-18 | When `pattern[i] == pattern[len]`, storing `len + 1` at `i` and advancing both keeps the loop state. |
| Lps.MatchStep | main.cpp:17-18 | A border extended by a matching character is the longest border one position on. No border two positions on is longer than one more. |
| Lps.EmptyState | main.cpp:22-24 | On a mismatch with `len == 0`, storing 0 at `i` and advancing `i` keeps the loop state. |
| Lps.EmptyStep | main.cpp:22-24 | On a mismatch against the first character, `pattern[..i + 1]` has no non-empty border. |
| Lps.FallbackState | main.cpp:26-28 | On a mismatch with `len > 0`, `len := lpsv[len - 1]` strictly decreases `len` and keeps the loop state. |
| Lps.FallbackStep | main.cpp:26-28 | Falling back to the longest border of `pattern[..len]` loses no border of `pattern[..i + 1]`. |
| Kmp.Kmp | main.cpp:37-70 | For a non-empty pattern, an offset is in the result exactly when the pattern occurs there in the text, overlapping occurrences included. The offsets are strictly ascending. |
| Kmp.PartialMatchStep | main.cpp:50-52 | A matching character that does not complete the pattern extends the partial match. It neither records nor skips an occurrence. |
| Kmp.FullMatchRecords | main.cpp:50-55 | A matching character that completes the pattern records exactly the occurrence at `i - m`. |
| Kmp.FullMatchResumes | main.cpp:54-57 | After a full match, resuming with `j = lpsv[m - 1]` keeps a partial match and skips no occurrence. |
| Kmp.EmptyMismatchStep | main.cpp:61-63 | A mismatch at `j == 0` advances the text index without skipping an occurrence. |
| Kmp.FallbackMismatchStep | main.cpp:64-66 | A mismatch at `j > 0` falls back to `lpsv[j - 1]`, keeps a partial match and skips no occurrence. |
| Kmp.BorderSkipsNothing | main.cpp:56-65 | No occurrence starts strictly between the abandoned partial match and the longest border it falls back to. |
| Kmp.OccurrencesUpToMembers | main.cpp:55 | The reference list of recorded offsets holds exactly the occurrences that end by a given position. |
| Kmp.OccurrencesUpToAscending | main.cpp:55 | The reference list of recorded offsets is strictly ascending. |
| Kmp.AllOccurrences | main.cpp:48-69 | At the end of the text, the reference list holds every occurrence, in strictly ascending order. |
| Manacher.Preprocess | main.cpp:73-80 | The result is `2 * n + 1` characters long for a text of length `n`. It holds `#` at every even index and `s[k]` at index `2 * k + 1`. |
| Manacher.Radii | main.cpp:86-106 | After the main loop, every `P[i]` is a radius around `i` that cannot be extended: an end is out of range or the next two characters differ. |
| Manacher.SeedStep | main.cpp:91-94 | For `i < R`, the mirror index `2 * C - i` is in range, and `min(R - i, P[mirror])` is a radius around `i`. For `i >= R`, 0 is. In both cases the earlier radii stay maximal. |
| Manacher.MirrorRadius | main.cpp:93-94 | Inside the palindrome around `C` reaching `R`, a centre has at least its mirror centre's radius, cut off at `R`. |
| Manacher.ExpandStep | main.cpp:97-99 | Each pass of the expansion loop leaves `P[i]` a radius around `i`. |
| Manacher.RadiusExtend | main.cpp:97-99 | A radius whose two next characters agree grows by one. |
| Manacher.FinishStep | main.cpp:97-105 | When the expansion stops, `P[i]` is maximal. Afterwards `C <= i` and `R == C + P[C]` hold, with `C`, `R` moving to `i` exactly when `i + P[i] > R`. |
| Manacher.MaximalRadiusIsGreatest | main.cpp:97 | A radius that cannot be extended is the largest radius around its centre. |
| Manacher.MaximalRadiusEven | main.cpp:117-118 | In the interleaved text, `center_index - max_len` is even for a maximal radius. |
| Manacher.PalindromeToRadius | main.cpp:117-119 | Every palindrome `s[a..b]` of the text is a radius `b - a` around `a + b` in the interleaved text. |
| Manacher.RadiusToPalindrome | main.cpp:117-119 | A radius whose palindrome starts on a separator is the palindrome `s.substr((c - r) / 2, r)` of the text, within bounds. |
| Manacher.FirstLargestRadius | main.cpp:108-119 | The first centre with the largest radius gives a start that is non-negative, in bounds and read from an even difference. The substring there is a palindrome of the text. No palindrome is longer, and none of equal length starts earlier. |
| Manacher.Manacher | main.cpp:83-120 | The result is `s.substr(start, max_len)` with `start + max_len` at most the length of `s`. It is a palindrome, and no palindromic substring of `s` is longer. Of the longest ones it is the leftmost. For empty `s` the result is `("", 0)`. |
| LongestCommon.CommonSuffix | main.cpp:155-165 | The value of cell `(i, j)` is at most `i + 1` and `j + 1`. It is non-zero exactly when `s1[i] == s2[j]`. |
| LongestCommon.CommonSuffixIsLongest | main.cpp:155-165 | A common run of length `k` ends at `s1[i]` and `s2[j]` exactly when `k` is at most the cell's value. Both directions hold, so the cell is the longest common suffix of `s1[..i + 1]` and `s2[..j + 1]`. |
| LongestCommon.CommonRunCell | main.cpp:155-157 | Every non-empty common run is bounded by the cell at its last characters. |
| LongestCommon.BoundaryCell | main.cpp:132-150 | A cell of the first row or column holds at most 1, and 1 only on a boundary match. |
| LongestCommon.BoundaryState | main.cpp:132-150 | After the boundary loops, `max` is 1 exactly on a boundary match. `posEnd` is still -1, and no interior cell has been filled. |
| LongestCommon.CellStep | main.cpp:155-162 | A cell that beats `max` moves `max` and `posEnd` to it. Otherwise the running maximum is unchanged. |
| LongestCommon.RowStep | main.cpp:153-154 | A finished row hands its state to the next row. |
| LongestCommon.CellBound | main.cpp:153-167 | Every cell above row `i` is bounded by the maximum of the interior cells filled so far. A first-row or first-column cell holds at most 1, and 1 only on a boundary match. |
| LongestCommon.FillRow | main.cpp:154-167 | After the inner loop, every cell of row `i` holds its longest common suffix. `max` is the largest interior cell filled so far, reached at row `posEnd`, and at no interior cell of an earlier row. The exception is that `posEnd` stays -1 while no interior cell beats the boundary value. Every cell outside row `i`, and column 0 of row `i`, keeps its value. |
| LongestCommon.ConclusionFound | main.cpp:170-172 | When `posEnd != -1`, `s1.substr(posEnd - max + 1, max)` is a common run. No common run of that length starts earlier in `s1`. |
| LongestCommon.ConclusionLongest | main.cpp:169-174 | No common run is longer than the reported one. The only exception is a single character when `posEnd == -1` and a boundary match exists. |
| LongestCommon.LongestSubstring | main.cpp:123-175 | A non-empty result is a substring of `s1` that also occurs in `s2`, and the leftmost in `s1` of its length. No common substring is longer, except a single character when the result is empty and a boundary match exists. A one-character result implies there is no boundary match. |
| LongestCommon.BoundaryOnlyMatchLost | main.cpp:132-150 | On `"ab"` and `"ba"`, `"a"` is a common substring, yet every result `LongestSubstring`'s contract allows is `""`. |
| LongestCommon.LongestSubstringFixed | main.cpp:123-175 | With the boundary match recorded, the result is a longest common substring of the two strings, read from `s1`. It is empty exactly when they share no character. |

## Left out

- `main` (main.cpp:177-250) is left out because it only reads the transmissions and patterns from files, prints results and fixes the file names.
- The search for the most frequent single-deletion variant is left out because `main.cpp` has no code for it: line 224 only prints a heading.
- Integer width is not modelled. Indices, lengths and table values are unbounded naturals, whereas the source uses 32-bit `int`, also for every loop counter except the `size_t` one of `preprocess` (line 75). Inputs long enough to overflow them are outside the model.
- `std::vector` and `std::string` results become Dafny `seq` and `string` values. The working storage (`lpsv`, `P`, `lcs`) stays an array.
- The `pair<string, int>` that `manacher` returns becomes two out-parameters.
- Kmp.Kmp: requires a non-empty pattern. With an empty pattern the source compares the terminating NUL `patron[0]` with each character. It returns no offsets, unless the text holds a NUL, in which case it reads past the end of the pattern. That behaviour is not modelled.
- LongestCommon.LongestSubstring: `posEnd` starts at -1, the sentinel the comparison at line 170 expects. The source leaves it uninitialised (line 124), which is undefined behaviour whenever no interior cell sets it.
- LongestCommon.LongestSubstring: returns `""` when either string is empty. The source indexes `lcs[i][0]` or `lcs[0][j]` in rows or columns that do not exist (lines 133-150), which is undefined behaviour.
- LongestCommon.LongestSubstring: does not promise a longest common substring in one case. The code as written skips a one-character one when a boundary match exists, and the contract states exactly that exception; see Findings.
- The inner loop of `longestSubstring` (lines 154-167) is modelled as `LongestCommon.FillRow`, a method called once per row. Its state is threaded through the calls with the same assignments.
- The main loop of `manacher` (lines 86-106) is modelled as the method `Manacher.Radii`. The method requires a non-empty interleaved text, which `Preprocess` always produces.
- The comment at main.cpp:122 describes `longestSubstring` as finding the longest common substring of `s1` and `s2`. The code differs in the one-character case above. The model follows the code and gives the corrected version separately.

## Findings

| source | as written | input that shows it | evidently intended | confidence | as-written member | corrected member |
|---|---|---|---|---|---|---|
| main.cpp:132-150 | The boundary loops set `max = 1` on a boundary match but never set `posEnd`. When no longer run exists, `posEnd` stays at -1 and the result is `""`, even though a one-character common substring exists. | `s1 = "ab"`, `s2 = "ba"`: returns `""`, while `"a"` and `"b"` are common | The boundary loops record the row of their match as `posEnd`, so that the result is a longest common substring | not executed; high | LongestCommon.BoundaryOnlyMatchLost | LongestCommon.LongestSubstringFixed |
