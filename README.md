# Boyer-Moore exact matching (bm.py), modelled and verified in Dafny

This project models the Boyer-Moore string matcher of `bm.py`:

- Gusfield's Z-algorithm.
- The N array, as the Z-array of the reversed pattern, reversed back.
- The three good-suffix tables L′, L and l′.
- The dense bad-character table.
- The `BoyerMoore` preprocessing object with its three shift rules.
- The right-to-left matching loop of `boyer_moore`, without its console output.

Every table-building loop is a Dafny `method` whose result is proved equal to an independent
definition:

| table | definition |
|---|---|
| Z | longest common prefixes |
| N | longest common suffixes |
| L′ | the last index with a given N value |
| L | prefix maxima of L′ |
| l′ | the largest border index |
| bad-character table | rightmost earlier occurrences |

Lemmas then prove what each definition means for the pattern:

- L′ and L locate the rightmost other copy of a matched suffix.
- l′ is the longest border that fits.
- Each shift rule skips no occurrence.

The scan is proved sound. Its occurrences come out strictly increasing, and its counters stay bounded.

Proving completeness exposed a bug in `good_suffix_rule` (see "## Findings"). `Scan` takes a
`corrected` flag:

- With `false`, it is the source as written. Completeness is proved only for patterns with
  2·l′[1] ≤ m.
- With `true`, it uses the corrected rule and is proved complete for every pattern.

Files, one module each:

- `strings.dfy`: reversal, Lcp, Lcs and MaxOf.
- `z_algorithm.dfy`: `z_array`.
- `good_suffix.dfy`: N, L′, L, l′ and `good_suffix_table`.
- `bad_character.dfy`: the alphabet map and `dense_bad_char_table`.
- `boyer_moore.dfy`: the class, the shift-safety lemmas and the scan.

In `boyer_moore.dfy`, `Outcome` defines one alignment and `ScanFrom` defines the driver loop over
the outcomes of all alignments. The loop body `Step` and the loop `Slide` take that sequence of
outcomes as a ghost parameter. It exists only for the proof and has no counterpart in the source.

## Model

| member | source | states |
|---|---|---|
| ZAlgorithm.ZValues | bm.py:9-17 | Z by definition: length n, Z[0] = n, and for every k, 0 ≤ Z[k] ≤ n − k |
| ZAlgorithm.ExtendMatch | bm.py:35-39 | the explicit comparison loop stops at a prefix match of s[k..] that cannot be extended, i.e. the Z-value at k |
| ZAlgorithm.BoxCopy | bm.py:43-44 | case 2a: when Z[k−left] ends inside the Z-box, it is also the Z-value at k |
| ZAlgorithm.BoxReach | bm.py:47-54 | case 2b: when Z[k−left] reaches the end of the box, s[k..right] matches the prefix, so comparisons resume at right+1 |
| ZAlgorithm.ZRound | bm.py:30-54 | one round of the main loop writes the Z-value at k, changes nothing else in z, and keeps s[left..right] a copy of a prefix (the Z-box invariant). In case 2a the box stays where it is; in cases 1 and 2b it moves to [k, k+Z[k]−1], and its right end never moves left |
| ZAlgorithm.ZArray | bm.py:9-56 | z_array returns exactly ZValues(s): Z[k] is the longest common prefix of s[k..] and s |
| Strings.LcpOfReverses | bm.py:59-65 | the longest common prefix of two reversals is the longest common suffix of the originals, which is why reversing the Z-array of the reversed pattern gives N |
| GoodSuffix.NArray | bm.py:59-65 | n_array returns N with N[i] the longest common suffix of p[..i+1] and p |
| GoodSuffix.NBounds | bm.py:59-65 | 0 ≤ N[i] ≤ i+1 and N[m−1] = m |
| GoodSuffix.NReach | bm.py:59-65 | N[j] ≥ u exactly when p[..j+1] ends with the suffix of p of length u |
| GoodSuffix.NBorder | bm.py:104-106 | N[b−1] = b exactly when the prefix of length b is also a suffix |
| GoodSuffix.LastIndexOf | bm.py:75-78 | the upward loop's later writes win: 1 + the largest j < hi with N[j] = v, or 0 |
| GoodSuffix.BigLPrimeArray | bm.py:68-80 | big_l_prime_array returns L′[i] = 1 + the largest j ≤ m−2 with N[j] = m−i, or 0 |
| GoodSuffix.BigLPrimeRange | bm.py:68-80 | L′[0] = 0; every entry lies in [0, m−1]; L′[i] > 0 gives N[L′[i]−1] = m−i, with no such j at or after it |
| GoodSuffix.BigLPrimeStrong | bm.py:68-80 | L′[i] > 0 is the end of a copy of p[i..] inside p[..m−1] whose preceding symbol differs from p[i−1] |
| GoodSuffix.BigLArray | bm.py:83-94 | big_l_array returns L with L[0] = 0 and L[i] = max(L′[1..i]) |
| GoodSuffix.BigLStep | bm.py:88-92 | L[0] = 0, L[1] = L′[1], and L[i] = max(L[i−1], L′[i]) for i ≥ 2 |
| GoodSuffix.BigLMonotone | bm.py:91-92 | L is non-decreasing on 1..m−1 |
| GoodSuffix.BigLReach | bm.py:83-94 | L[i] = 1 + the largest j ≤ m−2 with N[j] ≥ m−i, or 0 when there is none |
| GoodSuffix.BigLCopy | bm.py:83-94 | L[i] > 0 is the end of the rightmost copy of p[i..] inside p[..m−1]; no copy ends between L[i] and m, and L[i] = 0 means there is none |
| GoodSuffix.CopyIffReach | bm.py:83-94 | a copy of p[i..] ends at e exactly when N[e−1] ≥ m−i |
| GoodSuffix.LargestBorder | bm.py:104-110 | the largest c ≤ b with N[c−1] = c, or 0; no index between it and b qualifies |
| GoodSuffix.SmallLPrimeArray | bm.py:97-112 | small_l_prime_array (marking, then smearing right to left) returns l′[t] = the largest b ≤ m−t with N[b−1] = b, or 0 |
| GoodSuffix.SmallLPrimeShape | bm.py:97-112 | 0 ≤ l′[t] ≤ m−t and l′[0] = m |
| GoodSuffix.SmallLPrimeMonotone | bm.py:108-110 | l′ is non-increasing |
| GoodSuffix.SmallLPrimeBorder | bm.py:97-112 | l′[t] is the length of the longest prefix of p that is also a suffix and has length ≤ m−t |
| GoodSuffix.GoodSuffixTable | bm.py:115-120 | good_suffix_table returns L′, L and l′ as defined from the pattern's own N |
| BadCharacter.AlphabetMap | bm.py:147 | the alphabet map's keys are exactly the alphabet's symbols, and each key maps to a position that holds it |
| BadCharacter.AlphabetMapDistinct | bm.py:147 | for a duplicate-free alphabet, amap[alphabet[i]] = i and there is one key per symbol |
| BadCharacter.BadCharEntry | bm.py:123-137 | table[i][c] = 1 + the rightmost k < i with amap[p[k]] = c, or 0 |
| BadCharacter.BadCharEntrySymbol | bm.py:123-137 | read through the alphabet map, table[i][amap[c]] is 1 + the rightmost k < i with p[k] = c, or 0 |
| BadCharacter.BadCharRowBounds | bm.py:123-137 | row 0 is all zeros and every entry of row i is at most i |
| BadCharacter.BadCharRowStep | bm.py:131-135 | row i+1 is row i with column amap[p[i]] set to i+1 and nothing else changed |
| BadCharacter.DenseBadCharTable | bm.py:123-137 | succeeds exactly when every pattern symbol is in the map, and then returns the table by definition (m rows of width len(amap)); otherwise reports the first missing symbol |
| BoyerMooreMatcher.BoyerMoore.constructor | bm.py:143-153 | `__init__` builds the alphabet map, the bad-character table, L and l′ as the definitions give them |
| BoyerMooreMatcher.BoyerMoore.BadCharacterRule | bm.py:155-162 | the shift lies in [1, offset+1] and lines up the rightmost occurrence of c left of offset, or moves past offset when c does not occur there |
| BoyerMooreMatcher.BoyerMoore.GoodSuffixRule | bm.py:164-179 | 0 at the last offset. If L[offset+1] > 0, m − L[offset+1] lines up the rightmost other copy of the matched suffix. Otherwise no other copy exists, and the rule returns l′[offset+1] itself, the longest border that fits in the matched suffix |
| BoyerMooreMatcher.BoyerMoore.GoodSuffixRuleCorrected | bm.py:164-179 | the same rule, with m − l′[offset+1] in the last branch: a shift in [1, m] that lines up the longest border that fits |
| BoyerMooreMatcher.BoyerMoore.MatchSkip | bm.py:181-184 | m − l′[1] lies in [1, m] and is the smallest period of the pattern |
| BoyerMooreMatcher.SuffixShiftSafe | bm.py:164-184 | a shift that passes no copy of the matched suffix and no border that such an occurrence would need skips no occurrence |
| BoyerMooreMatcher.BadCharacterShiftSafe | bm.py:155-162 | the bad-character shift skips no occurrence of the pattern |
| BoyerMooreMatcher.CorrectedGoodSuffixShiftSafe | bm.py:164-179 | the corrected good-suffix shift skips no occurrence, for every pattern |
| BoyerMooreMatcher.GoodSuffixShiftSafe | bm.py:164-179 | the good-suffix shift as written skips no occurrence at the last offset, in the L branch, and whenever 2·l′[1] ≤ m |
| BoyerMooreMatcher.MatchSkipSafe | bm.py:181-184 | after a full match, the match skip skips no occurrence |
| BoyerMooreMatcher.GoodSuffixRuleOvershoot | bm.py:170-179 | the rule as written equals the corrected one except in the l′ branch; there it shifts further exactly when 2·l′[offset+1] > m, and never when 2·l′[1] ≤ m |
| BoyerMooreMatcher.AbabaTables | bm.py:83-112 | for "ababa", L[1] = 0 and l′[1] = 3 |
| BoyerMooreMatcher.MissedOccurrence | bm.py:164-179 | over "xbababa", pattern "ababa" mismatches at offset 0 of alignment 0. The bad-character shift is 1, the rule as written gives 3 and the corrected one gives 2. The shift to 3 skips the occurrence at 2 and passes the last alignment |
| BoyerMooreMatcher.CompareFromRight | bm.py:259-269 | comparing right to left from offset m−1 stops at the rightmost offset j where pattern and text differ, with every offset after j matched, or reaches j = 0 with the whole pattern matched; the count is m − j, and j is RightmostMismatch by definition |
| BoyerMooreMatcher.RightmostMismatch | bm.py:259-269 | the offset it returns, if any, is one where the pattern and the text differ |
| BoyerMooreMatcher.RightmostMismatchAgrees | bm.py:259-269 | above the rightmost mismatch the pattern and the text agree |
| BoyerMooreMatcher.RightmostMismatchIs | bm.py:259-269 | an offset where the symbols differ, with agreement everywhere above it, is the rightmost mismatch; with agreement everywhere, there is none (−1) |
| BoyerMooreMatcher.RightmostMismatchMeaning | bm.py:259-272 | there is no mismatch exactly when the pattern occurs at i; otherwise the text after the mismatch equals the pattern's suffix |
| BoyerMooreMatcher.NoOccurrenceMax | bm.py:267 | the larger of two shifts that skip nothing skips nothing |
| BoyerMooreMatcher.MismatchShiftSafe | bm.py:264-267 | after a mismatch, max(1, bad-character, good-suffix) skips no occurrence: always with the corrected rule, and when 2·l′[1] ≤ m with the rule as written |
| BoyerMooreMatcher.Outcome | bm.py:255-274 | the outcome of one alignment by definition; a failure names a symbol outside the alphabet map, and a success shifts by at least 1 |
| BoyerMooreMatcher.OutcomeFails | bm.py:155-162 | an alignment fails only on a symbol of its window that is missing from the alphabet map, and never when the whole window is in the map |
| BoyerMooreMatcher.OutcomeSound | bm.py:255-274 | a successful alignment reports a match exactly when the pattern occurs at i, makes 1 to m comparisons and shifts by at least 1 |
| BoyerMooreMatcher.MatchOutcomeSafe | bm.py:270-273 | after a full match, max(1, match_skip) skips no occurrence |
| BoyerMooreMatcher.MismatchOutcomeSafe | bm.py:264-267 | after the rightmost mismatch, the alignment's shift skips no occurrence: always with the corrected rule, and when 2·l′[1] ≤ m with the rule as written |
| BoyerMooreMatcher.OutcomeComplete | bm.py:255-274 | the shift of a successful alignment skips no occurrence, with the corrected rule or when 2·l′[1] ≤ m |
| BoyerMooreMatcher.OutcomeValues | bm.py:255-274 | after a mismatch at `at`: the symbols differ there and agree after it, text[i+at] is in the map, shift = max(1, bad_character_rule(at, text[i+at]), good_suffix_rule(at)), and m − at comparisons. After a full match: at = 0, shift = max(1, match_skip()) and m comparisons |
| BoyerMooreMatcher.Step | bm.py:255-274 | the loop body returns the alignment's outcome at i as Outcome defines it |
| BoyerMooreMatcher.Align | bm.py:255-274 | one alignment. After a mismatch at `at`: the suffix after `at` matched, shift = max(1, bad-character shift of text[i+at], good-suffix shift at `at`), comparisons = m − at. After a full match: shift = max(1, match_skip), comparisons = m. A match is reported exactly when the pattern occurs at i, and the shift skips no occurrence (corrected, or 2·l′[1] ≤ m). It fails only on a mismatched text symbol missing from the alphabet map |
| BoyerMooreMatcher.ScanFrom | bm.py:254-293 | the driver loop by definition over the outcomes of all alignments; a failure is the failure of an alignment it visited |
| BoyerMooreMatcher.ScanFromStep | bm.py:254-293 | one step of the driver: it stops past the last alignment, stops at a failure, and otherwise records the alignment and moves on by its shift |
| BoyerMooreMatcher.ScanFromKeeps | bm.py:254-293 | a property that every successful alignment carries over holds when the driver finishes |
| BoyerMooreMatcher.ScanFromSound | bm.py:254-293 | from any offset where Progress holds, the driver reports what Reported promises |
| BoyerMooreMatcher.ScanFromSucceeds | bm.py:254-293 | the driver succeeds when every alignment does |
| BoyerMooreMatcher.Outcomes | bm.py:254-293 | one outcome per offset 0..n−m, each as Outcome defines it |
| BoyerMooreMatcher.DescribesOnly | bm.py:254-293 | Outcomes is the only sequence with one Outcome per offset |
| BoyerMooreMatcher.DescribesAdvance | bm.py:254-293 | every successful alignment moves the pattern forward |
| BoyerMooreMatcher.OutcomesSound | bm.py:254-293 | over all alignments: successes report matches exactly at occurrences, make at most m comparisons and (corrected, or 2·l′[1] ≤ m) skip nothing; failures name a text symbol missing from the map; there are none when every text symbol is in the map |
| BoyerMooreMatcher.ScanSound | bm.py:249-293 | the scan by definition fails only on a text symbol missing from the map, succeeds when every text symbol is in it, and on success reports what Reported promises |
| BoyerMooreMatcher.ProgressStep | bm.py:254-291 | one alignment keeps the scan's invariant (Progress): listed occurrences are real, increasing and below i; counters bounded; all earlier occurrences listed when complete |
| BoyerMooreMatcher.ProgressDone | bm.py:254-293 | past the last alignment, Progress gives everything the scan reports |
| BoyerMooreMatcher.Slide | bm.py:249-293 | the while loop computes exactly the driver over the outcomes of all alignments (ScanFrom) |
| BoyerMooreMatcher.Scan | bm.py:249-293 | every reported occurrence is real and they strictly increase. A text shorter than the pattern gives ([], 0, 0). occurrences ≤ alignments ≤ n − m + 1 and comparisons ≤ m·alignments. With the corrected rule, or with 2·l′[1] ≤ m, every occurrence is reported. It fails only on a symbol missing from the alphabet map |

## Left out

- `visualize`, the `print`/`input` lines of `boyer_moore` and `main` are console output and interaction. Nothing of the returned result depends on them.
- ZAlgorithm.ZArray: requires a string longer than 1, where `z_array` asserts it. Patterns shorter than 2 have no other branch in the model: `big_l_array` indexes position 1.
- BoyerMooreMatcher.BoyerMoore.constructor: requires a duplicate-free alphabet that holds every pattern symbol.
  - With a repeated symbol, the dictionary comprehension keeps the last position. A column can then fall outside the table. The model does not reproduce that index error.
  - A pattern symbol missing from the alphabet makes `dense_bad_char_table` fail. DenseBadCharTable models that failure as a `Failure` result, but the constructor excludes it.
- BoyerMooreMatcher.BoyerMoore.BadCharacterRule: its two assertions (the symbol is in the map, and the offset is below the table length) are preconditions. Step, and so Align, checks the symbol first and returns `Failure` instead of asserting.
- BoyerMooreMatcher.Scan: completeness is stated only for the corrected rule and for patterns with 2·l′[1] ≤ m. With the rule as written it fails on other patterns (see "## Findings").
  - The `corrected` parameter is not in the source. `false` is the source as written.
  - The scan also returns a `Failure` where the source would stop with an assertion error.
- Python's integers and lists have no width limit, and neither do Dafny's `int` and `seq`, so nothing wraps around.
- The mutable lists of the source are modelled as sequences that the methods reassign. None of them is aliased outside its function, and the class fields are written only in `__init__`, so they are `const`.

## Findings

| source | as written | input that shows it | evidently intended | confidence | as-written member | corrected member |
|---|---|---|---|---|---|---|
| bm.py:179 | when L[offset+1] = 0, `good_suffix_rule` returns l′[offset+1], the length of the border | pattern "ababa" over text "xbababa": mismatch at offset 0 of alignment 0; bad-character shift 1, good-suffix shift l′[1] = 3. The scan moves to 3, beyond the last alignment 2, and misses the occurrence at 2 | m − l′[offset+1], which lines up that border with the end of the matched suffix (shift 2 here) | not executed | BoyerMooreMatcher.MissedOccurrence | BoyerMooreMatcher.BoyerMoore.GoodSuffixRuleCorrected |
