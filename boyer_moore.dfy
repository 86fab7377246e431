/** The BoyerMoore preprocessing object, its three shift rules and the right-to-left matching
    loop of bm.py (boyer_moore without its console output). */
module BoyerMooreMatcher {
  import opened GoodSuffix
  import opened BadCharacter

  /** The pattern p occurs in the text at offset q. */
  ghost predicate Occurs(p: string, text: string, q: int)
  {
    0 <= q && q + |p| <= |text| && text[q..q + |p|] == p
  }

  /** No occurrence of p starts strictly between lo and hi: a shift from lo to hi skips nothing. */
  ghost predicate NoOccurrenceBetween(p: string, text: string, lo: int, hi: int)
  {
    forall q :: lo < q < hi ==> !Occurs(p, text, q)
  }

  class BoyerMoore {
    const amap: map<char, int>
    const badChar: seq<seq<int>>
    const bigL: seq<int>
    const smallLPrime: seq<int>
    ghost const pattern: string
    ghost const alphabet: string

    /** The alphabet map sends each symbol to a column of the table and back through the
        alphabet, it knows every pattern symbol, and the bad-character table is the one the
        definition gives. */
    ghost predicate BadCharValid()
    {
      && |amap| == |alphabet|
      && (forall c :: c in amap ==> 0 <= amap[c] < |amap| && alphabet[amap[c]] == c)
      && (forall k :: 0 <= k < |pattern| ==> pattern[k] in amap)
      && badChar == BadCharValues(pattern, amap)
    }

    /** L and l' are the ones the definitions give for a pattern of at least two symbols. */
    ghost predicate GoodSuffixValid()
    {
      && |pattern| >= 2
      && bigL == BigLValues(BigLPrimeValues(NValues(pattern), |pattern|), |pattern|)
      && smallLPrime == SmallLPrimeValues(NValues(pattern))
    }

    ghost predicate Valid()
    {
      BadCharValid() && GoodSuffixValid()
    }

    /** __init__: the alphabet map, the dense bad-character table and the L and l' tables. */
    constructor (pattern: string, alphabet: string)
      requires |pattern| >= 2 && Distinct(alphabet)
      requires forall k :: 0 <= k < |pattern| ==> pattern[k] in alphabet
      ensures Valid() && this.pattern == pattern && this.alphabet == alphabet
      ensures amap == AlphabetMap(alphabet)
    {
      var amap := AlphabetMap(alphabet);
      AlphabetMapDistinct(alphabet);
      var table := DenseBadCharTable(pattern, amap);
      var _, l, sl := GoodSuffixTable(pattern);
      this.amap := amap;
      this.badChar := table.value;
      this.bigL := l;
      this.smallLPrime := sl;
      this.pattern := pattern;
      this.alphabet := alphabet;
    }

    /** bad_character_rule: after a mismatch against symbol c at offset, shift so that the
        rightmost occurrence of c left of offset lines up with it, or past it when there is none. */
    function BadCharacterRule(offset: nat, c: char): (shift: int)
      requires BadCharValid() && c in amap && offset < |badChar|
      ensures 1 <= shift <= offset + 1
      ensures shift <= offset ==> pattern[offset - shift] == c
      ensures forall k :: offset - shift < k < offset ==> pattern[k] != c
    {
      var index := amap[c];
      assert badChar[offset] == BadCharRow(pattern, amap, offset);
      assert badChar[offset][index] == BadCharEntry(pattern, amap, offset, index);
      BadCharEntrySymbol(pattern, amap, alphabet, offset, c);
      offset - (badChar[offset][index] - 1)
    }

    /** good_suffix_rule, as written: 0 at the last offset; when L[offset+1] > 0 the shift that
        lines up the rightmost other copy of the matched suffix; otherwise l'[offset+1] itself,
        the length of the longest border of p that fits in the matched suffix. */
    function GoodSuffixRule(offset: nat): (shift: int)
      requires GoodSuffixValid() && offset < |bigL|
      ensures offset == |pattern| - 1 ==> shift == 0
      ensures offset < |pattern| - 1 && bigL[offset + 1] > 0 ==>
        && 1 <= shift <= offset + 1
        && CopyEndsAt(pattern, offset + 1, |pattern| - shift)
        && var s := offset + 1; forall e :: |pattern| - shift < e < |pattern| ==> !CopyEndsAt(pattern, s, e)
      ensures offset < |pattern| - 1 && bigL[offset + 1] == 0 ==>
        && (var s := offset + 1; forall e :: 0 < e < |pattern| ==> !CopyEndsAt(pattern, s, e))
        && 0 <= shift <= |pattern| - offset - 1
        && IsBorder(pattern, shift)
        && forall b :: shift < b <= |pattern| - offset - 1 ==> !IsBorder(pattern, b)
    {
      var length := |bigL|;
      if offset == length - 1 then 0
      else
        var s := offset + 1;
        BigLCopy(pattern, s);
        SmallLPrimeBorder(pattern, s);
        if bigL[s] > 0 then length - bigL[s] else smallLPrime[s]
    }

    /** The good-suffix rule with the l' branch as the Boyer-Moore method defines it:
        m - l'[offset+1], which lines up the longest border with the end of the matched suffix. */
    function GoodSuffixRuleCorrected(offset: nat): (shift: int)
      requires GoodSuffixValid() && offset < |bigL|
      ensures offset == |pattern| - 1 ==> shift == 0
      ensures offset < |pattern| - 1 ==> 1 <= shift <= |pattern|
      ensures offset < |pattern| - 1 && bigL[offset + 1] == 0 ==>
        && IsBorder(pattern, |pattern| - shift)
        && forall b :: |pattern| - shift < b <= |pattern| - offset - 1 ==> !IsBorder(pattern, b)
    {
      var length := |bigL|;
      if offset == length - 1 then 0
      else
        var s := offset + 1;
        BigLCopy(pattern, s);
        SmallLPrimeBorder(pattern, s);
        if bigL[s] > 0 then length - bigL[s] else length - smallLPrime[s]
    }

    /** match_skip: after a full match, m - l'[1], the smallest period of the pattern: p[shift..]
        is a prefix of p, and no smaller shift has that property. */
    function MatchSkip(): (shift: int)
      requires GoodSuffixValid()
      ensures 1 <= shift <= |pattern|
      ensures IsBorder(pattern, |pattern| - shift)
      ensures forall b :: |pattern| - shift < b < |pattern| ==> !IsBorder(pattern, b)
    {
      SmallLPrimeBorder(pattern, 1);
      |smallLPrime| - smallLPrime[1]
    }
  }

  // ---------------------------------------------------------------------------
  // Shift safety

  /** A shift that skips no occurrence also skips none when made shorter. */
  lemma NoOccurrenceShorter(p: string, text: string, lo: int, hi: int, hi': int)
    requires hi' <= hi && NoOccurrenceBetween(p, text, lo, hi)
    ensures NoOccurrenceBetween(p, text, lo, hi')
  {
  }

  /** With text[i+s..i+m] == p[s..] matched, an occurrence at i + d (0 < d < m) puts a copy of
      p[s..] ending at m - d when d <= s, and makes m - d a border length when d > s. */
  lemma OccurrenceAfterMatch(p: string, text: string, i: nat, s: nat, d: int)
    requires s <= |p| && i + |p| <= |text| && 0 < d < |p|
    requires text[i + s..i + |p|] == p[s..]
    ensures Occurs(p, text, i + d) && d <= s ==> CopyEndsAt(p, s, |p| - d)
    ensures Occurs(p, text, i + d) && d > s ==> IsBorder(p, |p| - d)
  {
    var m, q := |p|, i + d;
    if Occurs(p, text, q) {
      if d <= s {
        assert text[i + s..i + m] == text[q..q + m][s - d..m - d];
      } else {
        assert text[q..i + m] == text[q..q + m][..m - d];
        assert text[q..i + m] == text[i + s..i + m][d - s..];
      }
    }
  }

  /** A shift that passes no copy of the matched suffix p[s..] and no border that such an
      occurrence would create skips no occurrence. */
  lemma SuffixShiftSafe(p: string, text: string, i: nat, s: nat, shift: int)
    requires s <= |p| && i + |p| <= |text| && shift <= |p|
    requires text[i + s..i + |p|] == p[s..]
    requires forall e :: |p| - shift < e < |p| && |p| - s <= e ==> !CopyEndsAt(p, s, e)
    requires forall b :: |p| - shift < b < |p| - s ==> !IsBorder(p, b)
    ensures NoOccurrenceBetween(p, text, i, i + shift)
  {
    forall q | i < q < i + shift ensures !Occurs(p, text, q) {
      OccurrenceAfterMatch(p, text, i, s, q - i);
    }
  }

  /** The bad-character shift skips no occurrence: any skipped alignment would put an
      occurrence of the examined text symbol strictly between its rightmost one and offset j. */
  lemma BadCharacterShiftSafe(bm: BoyerMoore, text: string, i: nat, j: nat)
    requires bm.BadCharValid() && i + |bm.pattern| <= |text| && j < |bm.pattern|
    requires text[i + j] in bm.amap
    ensures NoOccurrenceBetween(bm.pattern, text, i, i + bm.BadCharacterRule(j, text[i + j]))
  {
    var p, c := bm.pattern, text[i + j];
    var shift := bm.BadCharacterRule(j, c);
    forall q | i < q < i + shift ensures !Occurs(p, text, q) {
      OccursAt(p, text, q, j - (q - i));
    }
  }

  /** An occurrence at q puts p[k] at text position q + k. */
  lemma OccursAt(p: string, text: string, q: int, k: int)
    ensures Occurs(p, text, q) && 0 <= k < |p| ==> text[q + k] == p[k]
  {
    if Occurs(p, text, q) && 0 <= k < |p| {
      assert text[q..q + |p|][k] == p[k];
    }
  }

  /** The good-suffix shift as written skips no occurrence at the last offset and in the L
      branch; in the l' branch it is safe when 2 * l'[1] <= m, since then l'[s] <= m - l'[s]. */
  lemma GoodSuffixShiftSafe(bm: BoyerMoore, text: string, i: nat, j: nat)
    requires bm.GoodSuffixValid() && i + |bm.pattern| <= |text| && j < |bm.pattern|
    requires text[i + j + 1..i + |bm.pattern|] == bm.pattern[j + 1..]
    requires j == |bm.pattern| - 1 || bm.bigL[j + 1] > 0 || 2 * bm.smallLPrime[1] <= |bm.pattern|
    ensures NoOccurrenceBetween(bm.pattern, text, i, i + bm.GoodSuffixRule(j))
  {
    GoodSuffixRuleOvershoot(bm, j);
    CorrectedGoodSuffixShiftSafe(bm, text, i, j);
    NoOccurrenceShorter(bm.pattern, text, i, i + bm.GoodSuffixRuleCorrected(j), i + bm.GoodSuffixRule(j));
  }

  /** The corrected good-suffix shift skips no occurrence, whatever the pattern. */
  lemma CorrectedGoodSuffixShiftSafe(bm: BoyerMoore, text: string, i: nat, j: nat)
    requires bm.GoodSuffixValid() && i + |bm.pattern| <= |text| && j < |bm.pattern|
    requires text[i + j + 1..i + |bm.pattern|] == bm.pattern[j + 1..]
    ensures NoOccurrenceBetween(bm.pattern, text, i, i + bm.GoodSuffixRuleCorrected(j))
  {
    var p, m := bm.pattern, |bm.pattern|;
    if j < m - 1 {
      var s := j + 1;
      BigLCopy(p, s);
      SmallLPrimeBorder(p, s);
      SuffixShiftSafe(p, text, i, s, bm.GoodSuffixRuleCorrected(j));
    }
  }

  /** After a full match, the match skip skips no occurrence. */
  lemma MatchSkipSafe(bm: BoyerMoore, text: string, i: nat)
    requires bm.GoodSuffixValid() && i + |bm.pattern| <= |text|
    requires text[i..i + |bm.pattern|] == bm.pattern
    ensures NoOccurrenceBetween(bm.pattern, text, i, i + bm.MatchSkip())
  {
    SuffixShiftSafe(bm.pattern, text, i, 0, bm.MatchSkip());
  }

  /** The rule as written agrees with the corrected one at the last offset and in the L branch;
      in the l' branch it shifts l'[s] instead of m - l'[s], which is further exactly when
      2 * l'[s] > m, and never when 2 * l'[1] <= m since l' never increases. */
  lemma GoodSuffixRuleOvershoot(bm: BoyerMoore, j: nat)
    requires bm.GoodSuffixValid() && j < |bm.pattern|
    ensures j == |bm.pattern| - 1 || bm.bigL[j + 1] > 0 ==>
      bm.GoodSuffixRule(j) == bm.GoodSuffixRuleCorrected(j)
    ensures j < |bm.pattern| - 1 && bm.bigL[j + 1] == 0 ==>
      (bm.GoodSuffixRule(j) > bm.GoodSuffixRuleCorrected(j) <==> 2 * bm.smallLPrime[j + 1] > |bm.pattern|)
    ensures 2 * bm.smallLPrime[1] <= |bm.pattern| ==> bm.GoodSuffixRule(j) <= bm.GoodSuffixRuleCorrected(j)
  {
    if j < |bm.pattern| - 1 {
      SmallLPrimeMonotone(NValues(bm.pattern), 1, j + 1);
    }
  }

  /** For the pattern "ababa": L[1] = 0, since "baba" occurs nowhere else, and l'[1] = 3, the
      longest proper border being "aba". */
  lemma AbabaTables()
    ensures BigLValues(BigLPrimeValues(NValues("ababa"), 5), 5)[1] == 0
    ensures SmallLPrimeValues(NValues("ababa"))[1] == 3
  {
    var p := "ababa";
    BigLCopy(p, 1);
    SmallLPrimeBorder(p, 1);
    assert !CopyEndsAt(p, 1, 4) by {
      assert p[0..4][0] != p[1..][0];
    }
    assert IsBorder(p, 3) by {
      assert p[2..] == p[..3];
    }
    assert !IsBorder(p, 4) by {
      assert p[1..][0] != p[..4][0];
    }
  }

  /** Over the text "xbababa", the pattern "ababa" mismatches at offset 0 of alignment 0 after
      matching "baba"; the bad-character shift is 1 but the good-suffix rule as written gives
      l'[1] = 3, so the scan moves to alignment 3, past the last alignment 2, where the pattern
      occurs. The corrected rule gives m - l'[1] = 2 and lands on it. */
  lemma MissedOccurrence(bm: BoyerMoore)
    requires bm.Valid() && bm.pattern == "ababa" && 'x' in bm.amap
    ensures var text := "xbababa";
      && text[1..5] == bm.pattern[1..] && text[0] != bm.pattern[0]
      && bm.BadCharacterRule(0, 'x') == 1
      && bm.GoodSuffixRule(0) == 3
      && bm.GoodSuffixRuleCorrected(0) == 2
      && Occurs(bm.pattern, text, 2)
      && !NoOccurrenceBetween(bm.pattern, text, 0, 3)
      && 3 > |text| - |bm.pattern|
  {
    AbabaTables();
    AbabaText();
  }

  /** "xbababa" ends with "baba", starts with a symbol other than 'a', and holds "ababa" at 2. */
  lemma AbabaText()
    ensures var p, text := "ababa", "xbababa";
      && text[1..5] == p[1..] && text[0] != p[0]
      && Occurs(p, text, 2)
  {
    var p, text := "ababa", "xbababa";
    assert text[2..7] == p;
  }

  // ---------------------------------------------------------------------------
  // The scan

  /** What boyer_moore accumulates: the offsets of the occurrences found, in the order found,
      the number of alignments tried and the number of symbol comparisons made. */
  datatype ScanResult = ScanResult(occurrences: seq<int>, alignments: nat, comparisons: nat)

  /** The inner loop of boyer_moore: compare pattern[j] with text[i+j] for j = m-1 down to 0,
      stopping at the first mismatch; count is the number of comparisons made. When no mismatch
      occurs, j ends at 0 as the loop variable of the source does. */
  method CompareFromRight(pattern: string, text: string, i: nat) returns (j: int, mismatched: bool, count: nat)
    requires |pattern| >= 1 && i + |pattern| <= |text|
    ensures 0 <= j < |pattern| && count == |pattern| - j
    ensures mismatched ==> pattern[j] != text[i + j]
    ensures !mismatched ==> j == 0 && pattern[0] == text[i]
    ensures forall k :: j < k < |pattern| ==> pattern[k] == text[i + k]
    ensures RightmostMismatch(pattern, text, i, |pattern| - 1) == if mismatched then j else -1
  {
    var m := |pattern|;
    j := m - 1;
    count := 0;
    mismatched := false;
    while true
      invariant 0 <= j < m && count == m - 1 - j && !mismatched
      invariant forall k :: j < k < m ==> pattern[k] == text[i + k]
      decreases j
    {
      count := count + 1;
      if pattern[j] != text[i + j] {
        mismatched := true;
        break;
      }
      if j == 0 {
        break;
      }
      j := j - 1;
    }
    RightmostMismatchIs(pattern, text, i, m - 1, if mismatched then j else -1);
  }

  function Max(a: int, b: int): (r: int)
    ensures r >= a && r >= b && (r == a || r == b)
  {
    if a >= b then a else b
  }

  /** Shifting by the larger of two shifts that skip nothing skips nothing. */
  lemma NoOccurrenceMax(p: string, text: string, i: int, a: int, b: int)
    requires NoOccurrenceBetween(p, text, i, i + a) && NoOccurrenceBetween(p, text, i, i + b)
    ensures NoOccurrenceBetween(p, text, i, i + Max(a, b))
  {
  }

  /** Every occurrence that starts before i is listed in occ. */
  ghost predicate FoundBelow(p: string, text: string, occ: seq<int>, i: int)
  {
    forall q :: 0 <= q < i && Occurs(p, text, q) ==> q in occ
  }

  /** One alignment of the scan keeps every occurrence before the next alignment listed: the
      one at i is recorded exactly when it matched, and the shift skips no other. */
  lemma FoundAfterShift(p: string, text: string, occ: seq<int>, i: int, shift: int, matched: bool)
    requires 0 <= i && FoundBelow(p, text, occ, i)
    requires matched <==> Occurs(p, text, i)
    requires NoOccurrenceBetween(p, text, i, i + shift)
    ensures FoundBelow(p, text, if matched then occ + [i] else occ, i + shift)
  {
  }

  /** What the scan knows before alignment i: the listed occurrences are real, strictly
      increasing and below i; at most one per alignment; alignments and comparisons are bounded;
      and, when the shifts skip nothing, every occurrence below i is listed. */
  ghost predicate Progress(p: string, text: string, s: ScanResult, i: int, complete: bool)
  {
    && 0 <= i
    && (forall k :: 0 <= k < |s.occurrences| ==> Occurs(p, text, s.occurrences[k]) && s.occurrences[k] < i)
    && (forall k, k' :: 0 <= k < k' < |s.occurrences| ==> s.occurrences[k] < s.occurrences[k'])
    && |s.occurrences| <= s.alignments <= i
    && (s.alignments > 0 ==> s.alignments <= |text| - |p| + 1)
    && (s.alignments == 0 ==> i == 0 && s.comparisons == 0 && s.occurrences == [])
    && s.comparisons <= |p| * s.alignments
    && (complete ==> FoundBelow(p, text, s.occurrences, i))
  }

  /** What the scan holds after alignment i with outcome a: the occurrence i when a matched,
      one more alignment and a's comparisons. */
  function Record(acc: ScanResult, a: Alignment, i: int): ScanResult
  {
    ScanResult(if a.matched then acc.occurrences + [i] else acc.occurrences,
               acc.alignments + 1, acc.comparisons + a.comparisons)
  }

  /** One alignment keeps Progress: its occurrence is recorded when it matched, and the shift
      it made is safe whenever completeness is tracked. */
  lemma ProgressStep(p: string, text: string, s: ScanResult, i: int, complete: bool, a: Alignment)
    requires Progress(p, text, s, i, complete)
    requires i < |text| - |p| + 1
    requires 1 <= a.shift && a.comparisons <= |p| && (a.matched <==> Occurs(p, text, i))
    requires complete ==> NoOccurrenceBetween(p, text, i, i + a.shift)
    ensures Progress(p, text, Record(s, a, i), i + a.shift, complete)
  {
    var occ, occ', i' := s.occurrences, Record(s, a, i).occurrences, i + a.shift;
    forall k | 0 <= k < |occ'| ensures Occurs(p, text, occ'[k]) && occ'[k] < i' {
      if k < |occ| {
        assert occ'[k] == occ[k];
      }
    }
    forall k, k' | 0 <= k < k' < |occ'| ensures occ'[k] < occ'[k'] {
      assert occ'[k] == occ[k];
      if k' < |occ| {
        assert occ'[k'] == occ[k'];
      }
    }
    MulStep(|p|, s.alignments);
    if complete {
      FoundAfterShift(p, text, occ, i, a.shift, a.matched);
    }
  }

  /** What a finished scan reports: every listed occurrence is real, they are strictly
      increasing, nothing is examined when the text is shorter than the pattern, there is at
      most one occurrence per alignment and one alignment per text offset, at most m comparisons
      per alignment, and, when complete, every occurrence is listed. */
  ghost predicate Reported(p: string, text: string, res: ScanResult, complete: bool)
  {
    && (forall k :: 0 <= k < |res.occurrences| ==> Occurs(p, text, res.occurrences[k]))
    && (forall k, k' :: 0 <= k < k' < |res.occurrences| ==> res.occurrences[k] < res.occurrences[k'])
    && (|text| < |p| ==> res == ScanResult([], 0, 0))
    && |res.occurrences| <= res.alignments
    && (|text| >= |p| ==> 1 <= res.alignments <= |text| - |p| + 1)
    && res.comparisons <= |p| * res.alignments
    && (complete ==> forall q :: Occurs(p, text, q) ==> q in res.occurrences)
  }

  /** Once the alignment has passed the last offset, Progress is what the scan reports. */
  lemma ProgressDone(p: string, text: string, s: ScanResult, i: int, complete: bool)
    requires |p| >= 1 && Progress(p, text, s, i, complete)
    requires i >= |text| - |p| + 1
    ensures Reported(p, text, s, complete)
  {
    if complete {
      forall q | Occurs(p, text, q) ensures q in s.occurrences {
        assert q < i;
      }
    }
  }

  lemma MulStep(m: int, a: int)
    ensures m * (a + 1) == m * a + m
  {
  }

  /** After a mismatch at offset j, the largest of 1, the bad-character shift and the
      good-suffix shift skips no occurrence, for the corrected rule always and for the rule as
      written when 2 * l'[1] <= m. */
  lemma MismatchShiftSafe(bm: BoyerMoore, text: string, i: nat, j: nat, corrected: bool)
    requires bm.Valid() && i + |bm.pattern| <= |text| && j < |bm.pattern|
    requires text[i + j] in bm.amap
    requires text[i + j + 1..i + |bm.pattern|] == bm.pattern[j + 1..]
    ensures var skipGs := if corrected then bm.GoodSuffixRuleCorrected(j) else bm.GoodSuffixRule(j);
      corrected || 2 * bm.smallLPrime[1] <= |bm.pattern| ==>
        NoOccurrenceBetween(bm.pattern, text, i, i + Max(1, Max(bm.BadCharacterRule(j, text[i + j]), skipGs)))
  {
    if corrected || 2 * bm.smallLPrime[1] <= |bm.pattern| {
      var skipBc := bm.BadCharacterRule(j, text[i + j]);
      var skipGs := if corrected then bm.GoodSuffixRuleCorrected(j) else bm.GoodSuffixRule(j);
      BadCharacterShiftSafe(bm, text, i, j);
      if corrected {
        CorrectedGoodSuffixShiftSafe(bm, text, i, j);
      } else {
        GoodSuffixShiftSafe(bm, text, i, j);
      }
      NoOccurrenceMax(bm.pattern, text, i, skipBc, skipGs);
      NoOccurrenceMax(bm.pattern, text, i, 1, Max(skipBc, skipGs));
    }
  }

  /** The outcome of one alignment: whether the whole pattern matched, the offset at which the
      right-to-left comparison stopped (the mismatch, or 0 after a full match), the shift to the
      next alignment and the number of symbol comparisons made. */
  datatype Alignment = Alignment(matched: bool, at: int, shift: int, comparisons: nat)

  /** The offset of the rightmost position in 0..j where the pattern and the text at alignment i
      differ, or -1 when they agree on all of it. */
  function RightmostMismatch(p: string, text: string, i: nat, j: int): (r: int)
    requires i + |p| <= |text| && -1 <= j < |p|
    ensures -1 <= r <= j
    ensures r >= 0 ==> p[r] != text[i + r]
    decreases j + 1
  {
    if j < 0 then -1
    else if p[j] != text[i + j] then j
    else RightmostMismatch(p, text, i, j - 1)
  }

  /** Above the rightmost mismatch the pattern and the text agree. */
  lemma {:induction false} RightmostMismatchAgrees(p: string, text: string, i: nat, j: int)
    requires i + |p| <= |text| && -1 <= j < |p|
    ensures forall k :: RightmostMismatch(p, text, i, j) < k <= j ==> p[k] == text[i + k]
    decreases j + 1
  {
    if j >= 0 && p[j] == text[i + j] {
      RightmostMismatchAgrees(p, text, i, j - 1);
    }
  }

  /** The rightmost mismatch in 0..j is at when the symbols differ at at (or at is -1) and
      agree everywhere above it up to j. */
  lemma {:induction false} RightmostMismatchIs(p: string, text: string, i: nat, j: int, at: int)
    requires i + |p| <= |text| && -1 <= at <= j < |p|
    requires at >= 0 ==> p[at] != text[i + at]
    requires forall k :: at < k <= j ==> p[k] == text[i + k]
    ensures RightmostMismatch(p, text, i, j) == at
    decreases j + 1
  {
    if j > at {
      RightmostMismatchIs(p, text, i, j - 1, at);
    }
  }

  /** The rightmost mismatch over the whole pattern is -1 exactly when the pattern occurs;
      otherwise the suffix after it matches. */
  lemma RightmostMismatchMeaning(p: string, text: string, i: nat)
    requires i + |p| <= |text|
    ensures RightmostMismatch(p, text, i, |p| - 1) == -1 <==> Occurs(p, text, i)
    ensures var r := RightmostMismatch(p, text, i, |p| - 1);
      r >= 0 ==> text[i + r + 1..i + |p|] == p[r + 1..]
  {
    var r := RightmostMismatch(p, text, i, |p| - 1);
    RightmostMismatchAgrees(p, text, i, |p| - 1);
    if r == -1 {
      assert text[i..i + |p|] == p;
    } else {
      assert text[i..i + |p|][r] != p[r];
      var t, q := text[i + r + 1..i + |p|], p[r + 1..];
      forall k | 0 <= k < |t| ensures t[k] == q[k] {
        assert t[k] == text[i + (r + 1 + k)] && q[k] == p[r + 1 + k];
      }
    }
  }

  /** One alignment of boyer_moore at i, by definition: the rightmost mismatch, then the largest
      of 1, the bad-character shift and the good-suffix shift (as written, or corrected), or
      after a full match the largest of 1 and the match skip. A mismatched text symbol outside
      the alphabet fails, as bad_character_rule's assertion does. */
  function Outcome(p: string, bm: BoyerMoore, text: string, i: nat, corrected: bool): (r: Result<Alignment>)
    requires bm.Valid() && bm.pattern == p && i + |p| <= |text|
    ensures r.Failure? ==> r.error.symbol !in bm.amap
    ensures r.Success? ==> 1 <= r.value.shift
  {
    var j := RightmostMismatch(p, text, i, |p| - 1);
    if j < 0 then
      Success(Alignment(true, 0, Max(1, bm.MatchSkip()), |p|))
    else if text[i + j] !in bm.amap then
      Failure(SymbolNotInAlphabet(text[i + j]))
    else
      var skipGs := if corrected then bm.GoodSuffixRuleCorrected(j) else bm.GoodSuffixRule(j);
      Success(Alignment(false, j, Max(1, Max(bm.BadCharacterRule(j, text[i + j]), skipGs)), |p| - j))
  }

  /** An alignment fails only on a text symbol of its window outside the alphabet, and
      succeeds when every symbol of the window is in the alphabet. */
  lemma OutcomeFails(p: string, bm: BoyerMoore, text: string, i: nat, corrected: bool, r: Result<Alignment>)
    requires bm.Valid() && bm.pattern == p && i + |p| <= |text|
    requires r == Outcome(p, bm, text, i, corrected)
    ensures r.Failure? ==>
      r.error.symbol !in bm.amap && exists k :: i <= k < i + |p| && text[k] == r.error.symbol
    ensures (forall k :: i <= k < i + |p| ==> text[k] in bm.amap) ==> r.Success?
  {
  }

  /** A successful alignment reports a match exactly when the pattern occurs there, makes
      between 1 and m comparisons and moves the pattern forward. */
  lemma OutcomeSound(p: string, bm: BoyerMoore, text: string, i: nat, corrected: bool, r: Result<Alignment>)
    requires bm.Valid() && bm.pattern == p && i + |p| <= |text|
    requires r == Outcome(p, bm, text, i, corrected)
    ensures r.Success? ==>
      && 1 <= r.value.shift
      && 1 <= r.value.comparisons <= |p|
      && (r.value.matched <==> Occurs(p, text, i))
  {
    RightmostMismatchMeaning(p, text, i);
  }

  /** After a full match, the largest of 1 and the match skip skips no occurrence. */
  lemma MatchOutcomeSafe(bm: BoyerMoore, text: string, i: nat)
    requires bm.Valid() && i + |bm.pattern| <= |text|
    requires RightmostMismatch(bm.pattern, text, i, |bm.pattern| - 1) < 0
    ensures NoOccurrenceBetween(bm.pattern, text, i, i + Max(1, bm.MatchSkip()))
  {
    RightmostMismatchMeaning(bm.pattern, text, i);
    MatchSkipSafe(bm, text, i);
    NoOccurrenceMax(bm.pattern, text, i, 1, bm.MatchSkip());
  }

  /** After a mismatch at the rightmost offset j where the pattern and the text differ, the
      shift of the alignment skips no occurrence, for the corrected rule always and for the
      rule as written when 2 * l'[1] <= m. */
  lemma MismatchOutcomeSafe(bm: BoyerMoore, text: string, i: nat, j: nat, corrected: bool)
    requires bm.Valid() && i + |bm.pattern| <= |text|
    requires j == RightmostMismatch(bm.pattern, text, i, |bm.pattern| - 1) && text[i + j] in bm.amap
    ensures var skipGs := if corrected then bm.GoodSuffixRuleCorrected(j) else bm.GoodSuffixRule(j);
      corrected || 2 * bm.smallLPrime[1] <= |bm.pattern| ==>
        NoOccurrenceBetween(bm.pattern, text, i, i + Max(1, Max(bm.BadCharacterRule(j, text[i + j]), skipGs)))
  {
    RightmostMismatchMeaning(bm.pattern, text, i);
    MismatchShiftSafe(bm, text, i, j, corrected);
  }

  /** The shift of a successful alignment skips no occurrence, for the corrected rule always
      and for the rule as written when 2 * l'[1] <= m. */
  lemma OutcomeComplete(p: string, bm: BoyerMoore, text: string, i: nat, corrected: bool, r: Result<Alignment>)
    requires bm.Valid() && bm.pattern == p && i + |p| <= |text|
    requires r == Outcome(p, bm, text, i, corrected)
    ensures r.Success? && (corrected || 2 * bm.smallLPrime[1] <= |p|) ==>
      NoOccurrenceBetween(p, text, i, i + r.value.shift)
  {
    var j := RightmostMismatch(p, text, i, |p| - 1);
    if j < 0 {
      MatchOutcomeSafe(bm, text, i);
      assert r.value.shift == Max(1, bm.MatchSkip());
    } else if text[i + j] in bm.amap {
      MismatchOutcomeSafe(bm, text, i, j, corrected);
      assert r.value.shift == Max(1, Max(bm.BadCharacterRule(j, text[i + j]),
                                         if corrected then bm.GoodSuffixRuleCorrected(j) else bm.GoodSuffixRule(j)));
    }
  }

  /** What one alignment computes: after a mismatch, the offset at is the rightmost one where
      the pattern and the text differ with everything after it matched, the shift is the
      largest of 1, the bad-character shift for text[i+at] and the good-suffix shift at at, and
      m - at symbols were compared; after a full match the shift is the largest of 1 and the
      match skip, and all m symbols were compared. */
  lemma OutcomeValues(p: string, bm: BoyerMoore, text: string, i: nat, corrected: bool, r: Result<Alignment>)
    requires bm.Valid() && bm.pattern == p && i + |p| <= |text|
    requires r == Outcome(p, bm, text, i, corrected)
    ensures r.Success? && !r.value.matched ==>
      var at := r.value.at;
      && 0 <= at < |p| && p[at] != text[i + at]
      && (forall k :: at < k < |p| ==> p[k] == text[i + k])
      && text[i + at] in bm.amap
      && r.value.shift == Max(1, Max(bm.BadCharacterRule(at, text[i + at]),
                                     if corrected then bm.GoodSuffixRuleCorrected(at) else bm.GoodSuffixRule(at)))
      && r.value.comparisons == |p| - at
    ensures r.Success? && r.value.matched ==>
      r.value.at == 0 && r.value.shift == Max(1, bm.MatchSkip()) && r.value.comparisons == |p|
  {
    RightmostMismatchAgrees(p, text, i, |p| - 1);
  }

  /** The body of the loop of boyer_moore at alignment i: compare right to left, then shift by
      the largest of 1, the bad-character shift and the good-suffix shift after a mismatch, or
      by the largest of 1 and the match skip after a full match (the good-suffix shift comes
      from GoodSuffixRuleCorrected instead of the rule as written when corrected). A mismatched
      text symbol outside the alphabet fails, as bad_character_rule's assertion does. outs is
      the outcome of every alignment, and the result is the one at i. */
  method Step(pattern: string, bm: BoyerMoore, text: string, i: nat, corrected: bool,
              ghost outs: seq<Result<Alignment>>)
    returns (r: Result<Alignment>)
    requires bm.Valid() && bm.pattern == pattern && i + |pattern| <= |text|
    requires Describes(pattern, bm, text, corrected, outs)
    ensures r == outs[i]
  {
    var shift := 1;
    var j, mismatched, count := CompareFromRight(pattern, text, i);
    if mismatched {
      var c := text[i + j];
      if c !in bm.amap {
        r := Failure(SymbolNotInAlphabet(c));
      } else {
        var skipBc := bm.BadCharacterRule(j, c);
        var skipGs := if corrected then bm.GoodSuffixRuleCorrected(j) else bm.GoodSuffixRule(j);
        shift := Max(shift, Max(skipBc, skipGs));
        r := Success(Alignment(false, j, shift, count));
      }
    } else {
      var skipGs := bm.MatchSkip();
      shift := Max(shift, skipGs);
      r := Success(Alignment(true, j, shift, count));
    }
    assert r == Outcome(pattern, bm, text, i, corrected);
  }

  /** One alignment of boyer_moore at i, with what it computes and what it guarantees: it
      fails only on a window symbol outside the alphabet; after a mismatch at offset at, the
      symbols after at agree, the shift is the largest of 1, the bad-character shift and the
      good-suffix shift at at, and m - at symbols were compared; after a full match the shift
      is the largest of 1 and the match skip; a match is reported exactly at an occurrence, and
      the shift skips none for the corrected rule, and for the rule as written when
      2 * l'[1] <= m. */
  method Align(pattern: string, bm: BoyerMoore, text: string, i: nat, corrected: bool)
    returns (r: Result<Alignment>)
    requires bm.Valid() && bm.pattern == pattern && i + |pattern| <= |text|
    ensures r == Outcome(pattern, bm, text, i, corrected)
    ensures r.Failure? ==>
      r.error.symbol !in bm.amap && exists k :: i <= k < i + |pattern| && text[k] == r.error.symbol
    ensures (forall k :: i <= k < i + |pattern| ==> text[k] in bm.amap) ==> r.Success?
    ensures r.Success? ==>
      && 1 <= r.value.shift
      && 1 <= r.value.comparisons <= |pattern|
      && (r.value.matched <==> Occurs(pattern, text, i))
      && (corrected || 2 * bm.smallLPrime[1] <= |pattern| ==>
            NoOccurrenceBetween(pattern, text, i, i + r.value.shift))
    ensures r.Success? && !r.value.matched ==>
      var at := r.value.at;
      && 0 <= at < |pattern| && pattern[at] != text[i + at]
      && (forall k :: at < k < |pattern| ==> pattern[k] == text[i + k])
      && text[i + at] in bm.amap
      && r.value.shift == Max(1, Max(bm.BadCharacterRule(at, text[i + at]),
                                     if corrected then bm.GoodSuffixRuleCorrected(at) else bm.GoodSuffixRule(at)))
      && r.value.comparisons == |pattern| - at
    ensures r.Success? && r.value.matched ==>
      r.value.at == 0 && r.value.shift == Max(1, bm.MatchSkip()) && r.value.comparisons == |pattern|
  {
    ghost var outs := Outcomes(pattern, bm, text, corrected);
    r := Step(pattern, bm, text, i, corrected, outs);
    assert r == Outcome(pattern, bm, text, i, corrected);
    OutcomeFails(pattern, bm, text, i, corrected, r);
    OutcomeSound(pattern, bm, text, i, corrected, r);
    OutcomeComplete(pattern, bm, text, i, corrected, r);
    OutcomeValues(pattern, bm, text, i, corrected, r);
  }

  /** Every successful alignment moves the pattern forward. */
  ghost predicate Advances(outs: seq<Result<Alignment>>)
  {
    forall k :: 0 <= k < |outs| && outs[k].Success? ==> 1 <= outs[k].value.shift
  }

  /** The driver loop of boyer_moore, given the outcome outs[k] of the alignment at every offset
      k: from alignment i with what acc already holds, take the outcome of each alignment in
      turn, stop at the first failure, and finish once the alignment passes the last offset.
      A failure is the failure of an alignment the scan visited. */
  function ScanFrom(outs: seq<Result<Alignment>>, i: nat, acc: ScanResult): (r: Result<ScanResult>)
    requires Advances(outs)
    ensures r.Failure? ==> exists k :: i <= k < |outs| && outs[k] == Failure(r.error)
    decreases |outs| - i
  {
    if i >= |outs| then Success(acc)
    else if outs[i].Failure? then Failure(outs[i].error)
    else ScanFrom(outs, i + outs[i].value.shift, Record(acc, outs[i].value, i))
  }

  /** One step of ScanFrom: past the last offset it returns what it holds, at a failed
      alignment it fails with that alignment's error, and at a successful one the alignment is
      recorded and the scan moves on by its shift. */
  lemma ScanFromStep(outs: seq<Result<Alignment>>, i: nat, acc: ScanResult)
    requires Advances(outs)
    ensures i >= |outs| ==> ScanFrom(outs, i, acc) == Success(acc)
    ensures i < |outs| && outs[i].Failure? ==> ScanFrom(outs, i, acc) == Failure(outs[i].error)
    ensures i < |outs| && outs[i].Success? ==>
      ScanFrom(outs, i, acc) == ScanFrom(outs, i + outs[i].value.shift, Record(acc, outs[i].value, i))
  {
  }

  /** What every alignment of a scan of p over text guarantees: one outcome per offset
      0..|text| - m; a success makes at most m comparisons, matches exactly when p occurs there,
      and, when complete, shifts past no occurrence. */
  ghost predicate Sound(p: string, text: string, outs: seq<Result<Alignment>>, complete: bool)
  {
    && |outs| == (if |text| >= |p| then |text| - |p| + 1 else 0)
    && Advances(outs)
    && forall k :: 0 <= k < |outs| && outs[k].Success? ==>
         && outs[k].value.comparisons <= |p|
         && (outs[k].value.matched <==> Occurs(p, text, k))
         && (complete ==> NoOccurrenceBetween(p, text, k, k + outs[k].value.shift))
  }

  /** Induction over ScanFrom: a property of the alignment offset and the accumulated result
      that every successful alignment carries over to the next holds when the scan finishes,
      at some offset past the last one. */
  lemma {:induction false} ScanFromKeeps(outs: seq<Result<Alignment>>, inv: (nat, ScanResult) -> bool,
                                         i: nat, acc: ScanResult)
    requires Advances(outs)
    requires forall j: nat, s: ScanResult :: j < |outs| && outs[j].Success? && inv(j, s) ==>
               inv(j + outs[j].value.shift, Record(s, outs[j].value, j))
    requires inv(i, acc)
    ensures ScanFrom(outs, i, acc).Success? ==>
      exists j: nat :: j >= |outs| && inv(j, ScanFrom(outs, i, acc).value)
    decreases |outs| - i
  {
    if i >= |outs| {
      assert ScanFrom(outs, i, acc) == Success(acc);
    } else if outs[i].Success? {
      var a := outs[i].value;
      ScanFromStep(outs, i, acc);
      ScanFromKeeps(outs, inv, i + a.shift, Record(acc, a, i));
    }
  }

  /** From any alignment whose Progress holds, a scan whose alignments are Sound reports what
      Reported promises. */
  lemma ScanFromSound(p: string, text: string, outs: seq<Result<Alignment>>,
                      i: nat, acc: ScanResult, complete: bool)
    requires |p| >= 1 && Sound(p, text, outs, complete)
    requires Progress(p, text, acc, i, complete)
    ensures ScanFrom(outs, i, acc).Success? ==> Reported(p, text, ScanFrom(outs, i, acc).value, complete)
  {
    var inv := (j: nat, s: ScanResult) => Progress(p, text, s, j, complete);
    forall j: nat, s: ScanResult | j < |outs| && outs[j].Success? && inv(j, s)
      ensures inv(j + outs[j].value.shift, Record(s, outs[j].value, j))
    {
      ProgressStep(p, text, s, j, complete, outs[j].value);
    }
    ScanFromKeeps(outs, inv, i, acc);
    var r := ScanFrom(outs, i, acc);
    if r.Success? {
      var j: nat :| j >= |outs| && inv(j, r.value);
      ProgressDone(p, text, r.value, j, complete);
    }
  }

  /** A scan in which every alignment succeeds succeeds. */
  lemma {:induction false} ScanFromSucceeds(outs: seq<Result<Alignment>>, i: nat, acc: ScanResult)
    requires Advances(outs) && forall k :: 0 <= k < |outs| ==> outs[k].Success?
    ensures ScanFrom(outs, i, acc).Success?
    decreases |outs| - i
  {
    if i < |outs| {
      ScanFromSucceeds(outs, i + outs[i].value.shift, Record(acc, outs[i].value, i));
    }
  }

  /** outs holds the outcome of the alignment at every offset 0..|text| - m of a scan of p over
      text. */
  ghost predicate Describes(p: string, bm: BoyerMoore, text: string, corrected: bool, outs: seq<Result<Alignment>>)
    requires bm.Valid() && bm.pattern == p
    reads bm
  {
    && |outs| == (if |text| >= |p| then |text| - |p| + 1 else 0)
    && forall k: nat {:trigger Outcome(p, bm, text, k, corrected)} :: k < |outs| ==>
         outs[k] == Outcome(p, bm, text, k, corrected)
  }

  /** The outcome of the alignment at every offset 0..|text| - m of a scan of p over text. */
  ghost function Outcomes(p: string, bm: BoyerMoore, text: string, corrected: bool): (outs: seq<Result<Alignment>>)
    requires bm.Valid() && bm.pattern == p
    reads bm
    ensures Describes(p, bm, text, corrected, outs)
  {
    OutcomesBelow(p, bm, text, corrected, if |text| >= |p| then |text| - |p| + 1 else 0)
  }

  /** The outcomes of the alignments at offsets 0..n - 1. */
  ghost function OutcomesBelow(p: string, bm: BoyerMoore, text: string, corrected: bool, n: nat): (outs: seq<Result<Alignment>>)
    requires bm.Valid() && bm.pattern == p && n <= (if |text| >= |p| then |text| - |p| + 1 else 0)
    reads bm
    ensures |outs| == n
    ensures forall k: nat {:trigger Outcome(p, bm, text, k, corrected)} :: k < n ==>
              outs[k] == Outcome(p, bm, text, k, corrected)
  {
    if n == 0 then [] else OutcomesBelow(p, bm, text, corrected, n - 1) + [Outcome(p, bm, text, n - 1, corrected)]
  }

  /** Only Outcomes describes the alignments of a scan. */
  lemma DescribesOnly(p: string, bm: BoyerMoore, text: string, corrected: bool, outs: seq<Result<Alignment>>)
    requires bm.Valid() && bm.pattern == p && Describes(p, bm, text, corrected, outs)
    ensures outs == Outcomes(p, bm, text, corrected)
  {
    var outs' := Outcomes(p, bm, text, corrected);
    forall k | 0 <= k < |outs| ensures outs[k] == outs'[k] {
      assert outs[k] == Outcome(p, bm, text, k, corrected);
    }
  }

  /** Every successful Boyer-Moore alignment moves the pattern forward. */
  lemma DescribesAdvance(p: string, bm: BoyerMoore, text: string, corrected: bool, outs: seq<Result<Alignment>>)
    requires bm.Valid() && bm.pattern == p && Describes(p, bm, text, corrected, outs)
    ensures Advances(outs)
  {
    forall k | 0 <= k < |outs| && outs[k].Success? ensures 1 <= outs[k].value.shift {
      assert outs[k] == Outcome(p, bm, text, k, corrected);
    }
  }

  /** The Boyer-Moore alignments are Sound, complete for the corrected rule and for the rule as
      written when 2 * l'[1] <= m; each failure is a text symbol outside the alphabet; and all
      succeed when every text symbol is in the alphabet. */
  lemma OutcomesSound(p: string, bm: BoyerMoore, text: string, corrected: bool)
    requires bm.Valid() && bm.pattern == p
    ensures var outs := Outcomes(p, bm, text, corrected);
      && Sound(p, text, outs, corrected || 2 * bm.smallLPrime[1] <= |p|)
      && (forall k :: 0 <= k < |outs| && outs[k].Failure? ==>
            outs[k].error.symbol !in bm.amap && outs[k].error.symbol in text)
      && ((forall k :: 0 <= k < |text| ==> text[k] in bm.amap) ==> forall k :: 0 <= k < |outs| ==> outs[k].Success?)
  {
    var outs := Outcomes(p, bm, text, corrected);
    var complete := corrected || 2 * bm.smallLPrime[1] <= |p|;
    forall k | 0 <= k < |outs|
      ensures outs[k].Failure? ==> outs[k].error.symbol !in bm.amap && outs[k].error.symbol in text
      ensures outs[k].Success? ==>
        && 1 <= outs[k].value.shift
        && outs[k].value.comparisons <= |p|
        && (outs[k].value.matched <==> Occurs(p, text, k))
        && (complete ==> NoOccurrenceBetween(p, text, k, k + outs[k].value.shift))
      ensures (forall k :: 0 <= k < |text| ==> text[k] in bm.amap) ==> outs[k].Success?
    {
      OutcomeFails(p, bm, text, k, corrected, Outcome(p, bm, text, k, corrected));
      OutcomeSound(p, bm, text, k, corrected, Outcome(p, bm, text, k, corrected));
      OutcomeComplete(p, bm, text, k, corrected, Outcome(p, bm, text, k, corrected));
      assert outs[k] == Outcome(p, bm, text, k, corrected);
      if outs[k].Failure? {
        var j :| k <= j < k + |p| && text[j] == outs[k].error.symbol;
        assert text[j] in text;
      }
    }
  }

  /** What a Boyer-Moore scan by definition reports: a failure is a text symbol outside the
      alphabet, there is none when every text symbol is in the alphabet, and a success is
      Reported, complete for the corrected rule and for the rule as written when 2 * l'[1] <= m. */
  lemma ScanSound(p: string, bm: BoyerMoore, text: string, corrected: bool)
    requires bm.Valid() && bm.pattern == p
    ensures Advances(Outcomes(p, bm, text, corrected))
    ensures var r := ScanFrom(Outcomes(p, bm, text, corrected), 0, ScanResult([], 0, 0));
      && (r.Failure? ==> r.error.symbol !in bm.amap && r.error.symbol in text)
      && ((forall k :: 0 <= k < |text| ==> text[k] in bm.amap) ==> r.Success?)
      && (r.Success? ==> Reported(p, text, r.value, corrected || 2 * bm.smallLPrime[1] <= |p|))
  {
    var outs := Outcomes(p, bm, text, corrected);
    OutcomesSound(p, bm, text, corrected);
    ScanFromSound(p, text, outs, 0, ScanResult([], 0, 0), corrected || 2 * bm.smallLPrime[1] <= |p|);
    if forall k :: 0 <= k < |text| ==> text[k] in bm.amap {
      ScanFromSucceeds(outs, 0, ScanResult([], 0, 0));
    }
  }

  /** boyer_moore without its output: slide the pattern along the text, recording every full
      match and counting alignments and comparisons, exactly as ScanFrom drives the Outcomes of
      the alignments. Every reported occurrence is real and they come out strictly increasing.
      With the rule as written (corrected false) no occurrence is missed when 2 * l'[1] <= m;
      with the corrected rule none is missed for any pattern. */
  method Scan(pattern: string, bm: BoyerMoore, text: string, corrected: bool) returns (r: Result<ScanResult>)
    requires bm.Valid() && bm.pattern == pattern
    ensures Advances(Outcomes(pattern, bm, text, corrected))
    ensures r == ScanFrom(Outcomes(pattern, bm, text, corrected), 0, ScanResult([], 0, 0))
    ensures r.Failure? ==> r.error.symbol !in bm.amap && r.error.symbol in text
    ensures (forall k :: 0 <= k < |text| ==> text[k] in bm.amap) ==> r.Success?
    ensures r.Success? ==> Reported(pattern, text, r.value, corrected || 2 * bm.smallLPrime[1] <= |pattern|)
  {
    DescribesAdvance(pattern, bm, text, corrected, Outcomes(pattern, bm, text, corrected));
    r := Slide(pattern, bm, text, corrected, Outcomes(pattern, bm, text, corrected));
    ScanSound(pattern, bm, text, corrected);
  }

  /** The loop of boyer_moore: take the alignment at i (Step), stop at a failure, record a full
      match and move on by the alignment's shift until the pattern passes the end of the text.
      outs is the outcome of every alignment, which only Step consults. */
  method Slide(pattern: string, bm: BoyerMoore, text: string, corrected: bool,
               ghost outs: seq<Result<Alignment>>) returns (r: Result<ScanResult>)
    requires bm.Valid() && bm.pattern == pattern
    requires Describes(pattern, bm, text, corrected, outs) && Advances(outs)
    ensures r == ScanFrom(outs, 0, ScanResult([], 0, 0))
  {
    ghost var goal := ScanFrom(outs, 0, ScanResult([], 0, 0));
    var i: nat := 0;
    r := Success(ScanResult([], 0, 0));
    while r.Success? && i < |text| - |pattern| + 1
      invariant r.Success? ==> ScanFrom(outs, i, r.value) == goal
      invariant r.Failure? ==> r == goal
      decreases if r.Success? then 1 else 0, |text| - i
    {
      var step := Step(pattern, bm, text, i, corrected, outs);
      ScanFromStep(outs, i, r.value);
      if step.Failure? {
        r := Failure(step.error);
      } else {
        r, i := Success(Record(r.value, step.value, i)), i + step.value.shift;
      }
    }
    if r.Success? {
      ScanFromStep(outs, i, r.value);
    }
  }
}
