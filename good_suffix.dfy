/** The good-suffix tables of bm.py: the N array (n_array), L' (big_l_prime_array),
    L (big_l_array), l' (small_l_prime_array) and good_suffix_table, which chains them. */
module GoodSuffix {
  import opened Strings
  import opened ZAlgorithm

  // ---------------------------------------------------------------------------
  // N

  /** N by definition: N[i] is the length of the longest common suffix of p[..i+1] and p. */
  function NValues(p: string): (n: seq<int>)
    ensures |n| == |p|
  {
    seq(|p|, i requires 0 <= i < |p| => Lcs(p[..i + 1], p))
  }

  /** 0 <= N[i] <= i + 1, and N[m-1] = m. */
  lemma NBounds(p: string, i: nat)
    requires i < |p|
    ensures 0 <= NValues(p)[i] <= i + 1
    ensures i == |p| - 1 ==> NValues(p)[i] == |p|
  {
    if i == |p| - 1 {
      assert p[..i + 1] == p;
      LcsSelf(p);
    }
  }

  /** n_array: the Z-array of the reversed pattern, reversed back. */
  method NArray(p: string) returns (n: seq<int>)
    requires |p| > 1
    ensures n == NValues(p)
  {
    var z := ZArray(Reverse(p));
    n := Reverse(z);
    forall i | 0 <= i < |p| ensures n[i] == NValues(p)[i] {
      ReverseSuffix(p, i);
      LcpOfReverses(p[..i + 1], p);
    }
  }

  /** The shape every N array has: 0 <= N[j] <= j + 1, and N[m-1] = m. */
  ghost predicate NShape(n: seq<int>)
  {
    |n| >= 1 && n[|n| - 1] == |n| && forall j :: 0 <= j < |n| ==> 0 <= n[j] <= j + 1
  }

  lemma NValuesShape(p: string)
    requires |p| >= 1
    ensures NShape(NValues(p))
  {
    forall j | 0 <= j < |p| ensures 0 <= NValues(p)[j] <= j + 1 {
      NBounds(p, j);
    }
    NBounds(p, |p| - 1);
  }

  /** N[b-1] == b exactly when the prefix of length b is also a suffix of the pattern. */
  lemma NBorder(p: string, b: nat)
    requires 1 <= b <= |p|
    ensures NValues(p)[b - 1] == b <==> p[|p| - b..] == p[..b]
  {
    var a := p[..b];
    assert p[..b - 1 + 1] == a;
    assert NValues(p)[b - 1] == Lcs(a, p);
    LcsWhole(a, p);
  }

  /** N[j] >= u exactly when p[..j+1] ends with the suffix of p of length u. */
  lemma NReach(p: string, j: nat, u: nat)
    requires j < |p| && u <= j + 1
    ensures NValues(p)[j] >= u <==> p[j + 1 - u..j + 1] == p[|p| - u..]
  {
    var a := p[..j + 1];
    var r := Lcs(a, p);
    assert NValues(p)[j] == r;
    assert a[|a| - u..] == p[j + 1 - u..j + 1];
    if p[j + 1 - u..j + 1] == p[|p| - u..] {
      LcsIsLongest(a, p, u);
    }
    if r >= u {
      LcsCommon(a, p);
      assert a[|a| - u..] == a[|a| - r..][r - u..];
      assert p[|p| - u..] == p[|p| - r..][r - u..];
    }
  }

  /** p[..e] ends with a copy of the suffix p[i..]. */
  ghost predicate CopyEndsAt(p: string, i: int, e: int)
  {
    0 <= i <= |p| && |p| - i <= e <= |p| && p[e - (|p| - i)..e] == p[i..]
  }

  /** The prefix of length b is also a suffix. */
  ghost predicate IsBorder(p: string, b: int)
  {
    0 <= b <= |p| && p[|p| - b..] == p[..b]
  }

  // ---------------------------------------------------------------------------
  // L'

  /** 1 + the largest j < hi with n[j] == v, or 0 when there is none. */
  function LastIndexOf(n: seq<int>, v: int, hi: nat): (r: nat)
    requires hi <= |n|
    ensures r <= hi
    ensures r > 0 ==> n[r - 1] == v
    ensures forall j :: r <= j < hi ==> n[j] != v
  {
    if hi == 0 then 0
    else if n[hi - 1] == v then hi
    else LastIndexOf(n, v, hi - 1)
  }

  /** L' by definition: L'[i] is 1 + the largest j <= m-2 with N[j] == m - i, or 0. */
  function BigLPrimeValues(n: seq<int>, m: nat): (lp: seq<int>)
    requires m - 1 <= |n|
    ensures |lp| == m
  {
    seq(m, i requires 0 <= i < m => LastIndexOf(n, m - i, m - 1))
  }

  /** big_l_prime_array: for j = 0, 1, ..., m-2 write j+1 at m - N[j]; a later j overwrites an
      earlier one, so the largest j wins. */
  method BigLPrimeArray(pattern: string, n: seq<int>) returns (lp: seq<int>)
    requires |pattern| - 1 <= |n|
    requires forall j :: 0 <= j < |pattern| - 1 ==> n[j] <= |pattern|
    ensures lp == BigLPrimeValues(n, |pattern|)
  {
    var m := |pattern|;
    lp := seq(m, _ => 0);
    var j := 0;
    while j < m - 1
      invariant 0 <= j && (m >= 1 ==> j <= m - 1) && |lp| == m
      invariant forall i :: 0 <= i < m ==> lp[i] == LastIndexOf(n, m - i, j)
    {
      var i := m - n[j];
      if i < m {
        lp := lp[i := j + 1];
      }
      j := j + 1;
    }
  }

  /** Over any N-shaped array, L'[0] = 0, every entry lies in [0, m-1], and L'[i] > 0 is 1 + the
      largest j <= m-2 with N[j] = m - i (no such j at or after L'[i]). */
  lemma BigLPrimeRange(n: seq<int>, i: nat)
    requires NShape(n) && |n| >= 2 && i < |n|
    ensures var lp := BigLPrimeValues(n, |n|)[i];
      && 0 <= lp <= |n| - 1
      && (i == 0 ==> lp == 0)
      && (lp > 0 ==> n[lp - 1] == |n| - i)
      && (forall j :: lp <= j < |n| - 1 ==> n[j] != |n| - i)
  {
    assert BigLPrimeValues(n, |n|)[i] == LastIndexOf(n, |n| - i, |n| - 1);
  }

  /** N[j] == u exactly: p[..j+1] ends with the suffix of length u, and the symbols just before
      the two copies differ. */
  lemma NExact(p: string, j: nat, u: nat)
    requires j < |p| && 1 <= u <= j + 1 && NValues(p)[j] == u
    ensures p[j + 1 - u..j + 1] == p[|p| - u..]
    ensures u <= j ==> p[j - u] != p[|p| - 1 - u]
  {
    NReach(p, j, u);
    if u <= j {
      NReach(p, j, u + 1);
      var s1, s2 := p[j - u..j + 1], p[|p| - 1 - u..];
      assert s1[0] == p[j - u] && s2[0] == p[|p| - 1 - u];
      assert s1[1..] == p[j + 1 - u..j + 1] && s2[1..] == p[|p| - u..];
    }
  }

  /** For the pattern's own N, L'[i] > 0 is the end of the rightmost copy of p[i..] inside
      p[..m-1] that is not preceded by p[i-1]: the strong good-suffix condition. */
  lemma BigLPrimeStrong(p: string, i: nat)
    requires 2 <= |p| && 1 <= i < |p|
    ensures var lp := BigLPrimeValues(NValues(p), |p|)[i];
      && 0 <= lp < |p|
      && (lp > 0 ==>
        && CopyEndsAt(p, i, lp)
        && (lp > |p| - i ==> p[lp - (|p| - i) - 1] != p[i - 1]))
  {
    var lp := BigLPrimeValues(NValues(p), |p|)[i];
    assert lp == LastIndexOf(NValues(p), |p| - i, |p| - 1);
    if lp > 0 {
      ExactCopy(p, i, lp);
    }
  }

  /** When N[e-1] == m - i, a copy of p[i..] ends at e, preceded by a symbol other than p[i-1]. */
  lemma ExactCopy(p: string, i: nat, e: nat)
    requires 1 <= i < |p| && 1 <= e <= |p| && NValues(p)[e - 1] == |p| - i
    ensures CopyEndsAt(p, i, e)
    ensures e > |p| - i ==> p[e - (|p| - i) - 1] != p[i - 1]
  {
    NBounds(p, e - 1);
    NExact(p, e - 1, |p| - i);
  }

  // ---------------------------------------------------------------------------
  // L

  /** L by definition: L[0] = 0 and L[i] = max(L'[1..i]) for i >= 1. */
  function BigLValues(lp: seq<int>, m: nat): (l: seq<int>)
    requires 2 <= m <= |lp|
    ensures |l| == m
  {
    seq(m, i requires 0 <= i < m => if i == 0 then 0 else MaxOf(lp[1..i + 1]))
  }

  /** L[0] = 0, L[1] = L'[1], and L[i] = max(L[i-1], L'[i]) for 2 <= i < m. */
  lemma BigLStep(lp: seq<int>, m: nat, i: nat)
    requires 1 <= i < m <= |lp|
    ensures BigLValues(lp, m)[0] == 0
    ensures i == 1 ==> BigLValues(lp, m)[1] == lp[1]
    ensures i >= 2 ==>
      BigLValues(lp, m)[i] == if BigLValues(lp, m)[i - 1] >= lp[i] then BigLValues(lp, m)[i - 1] else lp[i]
  {
    if i == 1 {
      assert lp[1..2] == [lp[1]];
    } else {
      assert lp[1..i + 1][..i - 1] == lp[1..i];
    }
  }

  /** big_l_array: L[1] = L'[1], then L[i] = max(L[i-1], L'[i]) left to right. */
  method BigLArray(pattern: string, lp: seq<int>) returns (l: seq<int>)
    requires 2 <= |pattern| <= |lp|
    ensures l == BigLValues(lp, |pattern|)
  {
    var m := |pattern|;
    l := seq(m, _ => 0);
    l := l[1 := lp[1]];
    BigLStep(lp, m, 1);
    var i := 2;
    while i < m
      invariant 2 <= i <= m && |l| == m
      invariant forall q :: 0 <= q < i ==> l[q] == BigLValues(lp, m)[q]
    {
      BigLStep(lp, m, i);
      l := l[i := if l[i - 1] >= lp[i] then l[i - 1] else lp[i]];
      i := i + 1;
    }
  }

  /** L is non-decreasing on 1..m-1. */
  lemma BigLMonotone(lp: seq<int>, m: nat, i: nat, i': nat)
    requires 2 <= m <= |lp| && 1 <= i <= i' < m
    ensures BigLValues(lp, m)[i] <= BigLValues(lp, m)[i']
  {
    var k :| 0 <= k < i && lp[1..i + 1][k] == MaxOf(lp[1..i + 1]);
    assert lp[1..i' + 1][k] == lp[1..i + 1][k];
  }

  /** Over any N-shaped array, L[i] (1 <= i < m) is 1 + the largest j <= m-2 with N[j] >= m - i,
      or 0 when there is none. */
  lemma {:induction false} BigLReach(n: seq<int>, i: nat)
    requires NShape(n) && |n| >= 2 && 1 <= i < |n|
    ensures var l := BigLValues(BigLPrimeValues(n, |n|), |n|)[i];
      && 0 <= l <= |n| - 1
      && (l > 0 ==> n[l - 1] >= |n| - i)
      && (forall j :: l <= j < |n| - 1 ==> n[j] < |n| - i)
  {
    var m := |n|;
    var lp := BigLPrimeValues(n, m);
    BigLPrimeRange(n, i);
    BigLStep(lp, m, i);
    if i > 1 {
      BigLReach(n, i - 1);
    }
  }

  /** For the pattern's own N, L[i] > 0 is the end of the rightmost copy of p[i..] inside
      p[..m-1]; no copy ends further right, and when L[i] = 0 there is none at all. */
  lemma BigLCopy(p: string, i: nat)
    requires 2 <= |p| && 1 <= i < |p|
    ensures var l := BigLValues(BigLPrimeValues(NValues(p), |p|), |p|)[i];
      && 0 <= l < |p|
      && (l > 0 ==> CopyEndsAt(p, i, l))
      && (forall e :: l < e < |p| ==> !CopyEndsAt(p, i, e))
  {
    var n := NValues(p);
    var l := BigLValues(BigLPrimeValues(n, |p|), |p|)[i];
    NValuesShape(p);
    BigLReach(n, i);
    if l > 0 {
      CopyIffReach(p, i, l);
    }
    forall e | l < e < |p| ensures !CopyEndsAt(p, i, e) {
      CopyIffReach(p, i, e);
    }
  }

  /** A copy of p[i..] ends at e exactly when N[e-1] >= m - i. */
  lemma CopyIffReach(p: string, i: nat, e: nat)
    requires 1 <= i < |p| && 1 <= e <= |p|
    ensures CopyEndsAt(p, i, e) <==> |p| - i <= e && NValues(p)[e - 1] >= |p| - i
  {
    if |p| - i <= e {
      NReach(p, e - 1, |p| - i);
    }
  }

  // ---------------------------------------------------------------------------
  // l'

  /** The largest c <= b with n[c-1] == c, or 0 when there is none. */
  function LargestBorder(n: seq<int>, b: nat): (r: nat)
    requires b <= |n|
    ensures r <= b
    ensures r > 0 ==> n[r - 1] == r
    ensures forall j :: r <= j < b ==> n[j] != j + 1
  {
    if b == 0 then 0
    else if n[b - 1] == b then b
    else LargestBorder(n, b - 1)
  }

  /** l' by definition: l'[t] is the largest b <= m - t with N[b-1] == b, or 0. */
  function SmallLPrimeValues(n: seq<int>): (sl: seq<int>)
    ensures |sl| == |n|
  {
    seq(|n|, t requires 0 <= t < |n| => LargestBorder(n, |n| - t))
  }

  /** small_l_prime_array: mark l'[m-i-1] = i+1 wherever N[i] == i+1, then smear each
      unmarked entry from its right neighbour, right to left. */
  method SmallLPrimeArray(n: seq<int>) returns (sl: seq<int>)
    ensures sl == SmallLPrimeValues(n)
  {
    var m := |n|;
    sl := seq(m, _ => 0);
    var i := 0;
    while i < m
      invariant 0 <= i <= m && |sl| == m
      invariant forall t :: 0 <= t < m ==>
        sl[t] == if m - t - 1 < i && n[m - t - 1] == m - t then m - t else 0
    {
      if n[i] == i + 1 {  // prefix matching a suffix
        sl := sl[m - i - 1 := i + 1];
      }
      i := i + 1;
    }

    // Smear them out to the left
    i := m - 2;
    while i >= 0
      invariant i <= m - 2 && (m >= 1 ==> -1 <= i) && |sl| == m
      invariant forall t :: i < t < m && 0 <= t ==> sl[t] == LargestBorder(n, m - t)
      invariant forall t :: 0 <= t <= i ==> sl[t] == if n[m - t - 1] == m - t then m - t else 0
    {
      if sl[i] == 0 {
        sl := sl[i := sl[i + 1]];
      }
      i := i - 1;
    }
  }

  /** Over any N-shaped array, 0 <= l'[t] <= m - t and l'[0] = m. */
  lemma SmallLPrimeShape(n: seq<int>, t: nat)
    requires NShape(n) && t < |n|
    ensures var sl := SmallLPrimeValues(n);
      && 0 <= sl[t] <= |n| - t
      && (t == 0 ==> sl[t] == |n|)
  {
    assert SmallLPrimeValues(n)[t] == LargestBorder(n, |n| - t);
  }

  /** LargestBorder grows with its bound. */
  lemma {:induction false} LargestBorderMonotone(n: seq<int>, b: nat, b': nat)
    requires b <= b' <= |n|
    ensures LargestBorder(n, b) <= LargestBorder(n, b')
    decreases b'
  {
    if b < b' && n[b' - 1] != b' {
      LargestBorderMonotone(n, b, b' - 1);
    }
  }

  /** l' never increases: t <= t' implies l'[t'] <= l'[t]. */
  lemma SmallLPrimeMonotone(n: seq<int>, t: nat, t': nat)
    requires t <= t' < |n|
    ensures SmallLPrimeValues(n)[t'] <= SmallLPrimeValues(n)[t]
  {
    assert SmallLPrimeValues(n)[t] == LargestBorder(n, |n| - t);
    assert SmallLPrimeValues(n)[t'] == LargestBorder(n, |n| - t');
    LargestBorderMonotone(n, |n| - t', |n| - t);
  }

  /** For the pattern's own N, l'[t] is the length of the longest prefix of p, at most m - t
      long, that is also a suffix of p (0 when there is none). */
  lemma SmallLPrimeBorder(p: string, t: nat)
    requires 2 <= |p| && t < |p|
    ensures var sl := SmallLPrimeValues(NValues(p));
      && 0 <= sl[t] <= |p| - t
      && IsBorder(p, sl[t])
      && (forall b :: sl[t] < b <= |p| - t ==> !IsBorder(p, b))
  {
    assert SmallLPrimeValues(NValues(p))[t] == LargestBorder(NValues(p), |p| - t);
    LargestBorderIsBorder(p, |p| - t);
  }

  /** Over the pattern's own N, LargestBorder(N, c) is the longest border of p of length <= c. */
  lemma LargestBorderIsBorder(p: string, c: nat)
    requires c <= |p|
    ensures var r := LargestBorder(NValues(p), c);
      && IsBorder(p, r)
      && (forall b :: r < b <= c ==> !IsBorder(p, b))
  {
    var n := NValues(p);
    var r := LargestBorder(n, c);
    if r > 0 {
      NBorder(p, r);
    } else {
      assert p[|p|..] == p[..0];
    }
    forall b | r < b <= c ensures !IsBorder(p, b) {
      assert n[b - 1] != b;
      NBorder(p, b);
    }
  }

  // ---------------------------------------------------------------------------

  /** good_suffix_table: N, then L', L and l' from it. */
  method GoodSuffixTable(pattern: string) returns (lp: seq<int>, l: seq<int>, sl: seq<int>)
    requires |pattern| > 1
    ensures lp == BigLPrimeValues(NValues(pattern), |pattern|)
    ensures l == BigLValues(lp, |pattern|)
    ensures sl == SmallLPrimeValues(NValues(pattern))
  {
    var n := NArray(pattern);
    forall j | 0 <= j < |pattern| - 1 ensures n[j] <= |pattern| {
      NBounds(pattern, j);
    }
    lp := BigLPrimeArray(pattern, n);
    l := BigLArray(pattern, lp);
    sl := SmallLPrimeArray(n);
  }
}
