/** Reference definitions over sequences that the Boyer-Moore tables are specified by:
    reversal, longest common prefix, longest common suffix and the maximum of a sequence. */
module Strings {

  function Reverse<T>(s: seq<T>): (r: seq<T>)
    ensures |r| == |s|
    ensures forall i :: 0 <= i < |s| ==> r[i] == s[|s| - 1 - i]
  {
    seq(|s|, i requires 0 <= i < |s| => s[|s| - 1 - i])
  }

  /** The suffix of Reverse(s) that starts at |s| - 1 - i is the reversal of s[..i+1]. */
  lemma ReverseSuffix<T>(s: seq<T>, i: nat)
    requires i < |s|
    ensures Reverse(s)[|s| - 1 - i..] == Reverse(s[..i + 1])
  {
  }

  /** Length of the longest common prefix of a and b (LcpCommon and LcpIsLongest: the largest r
      with a[..r] == b[..r]). */
  function Lcp(a: string, b: string): (r: nat)
    ensures r <= |a| && r <= |b|
    decreases |a|
  {
    if |a| == 0 || |b| == 0 || a[0] != b[0] then 0 else 1 + Lcp(a[1..], b[1..])
  }

  lemma {:induction false} LcpCommon(a: string, b: string)
    ensures a[..Lcp(a, b)] == b[..Lcp(a, b)]
    decreases |a|
  {
    if |a| > 0 && |b| > 0 && a[0] == b[0] {
      var r' := Lcp(a[1..], b[1..]);
      LcpCommon(a[1..], b[1..]);
      assert a[..r' + 1] == [a[0]] + a[1..][..r'];
      assert b[..r' + 1] == [b[0]] + b[1..][..r'];
    }
  }

  /** Every common prefix is at most as long as the Lcp. */
  lemma {:induction false} LcpIsLongest(a: string, b: string, v: nat)
    requires v <= |a| && v <= |b| && a[..v] == b[..v]
    ensures v <= Lcp(a, b)
    decreases v
  {
    if v > 0 {
      assert a[0] == a[..v][0] && b[0] == b[..v][0];
      assert a[1..][..v - 1] == a[..v][1..];
      assert b[1..][..v - 1] == b[..v][1..];
      LcpIsLongest(a[1..], b[1..], v - 1);
    }
  }

  /** A common prefix of length v that cannot be extended (a mismatch or an end) is the Lcp. */
  lemma LcpUnique(a: string, b: string, v: nat)
    requires v <= |a| && v <= |b|
    requires a[..v] == b[..v]
    requires v == |a| || v == |b| || a[v] != b[v]
    ensures Lcp(a, b) == v
  {
    LcpIsLongest(a, b, v);
    var r := Lcp(a, b);
    LcpCommon(a, b);
  }

  lemma LcpSelf(s: string)
    ensures Lcp(s, s) == |s|
  {
    LcpIsLongest(s, s, |s|);
  }

  /** Length of the longest common suffix of a and b (LcsCommon and LcsIsLongest: the largest r
      with a[|a|-r..] == b[|b|-r..]). */
  function Lcs(a: string, b: string): (r: nat)
    ensures r <= |a| && r <= |b|
    decreases |a|
  {
    if |a| == 0 || |b| == 0 || a[|a| - 1] != b[|b| - 1] then 0
    else 1 + Lcs(a[..|a| - 1], b[..|b| - 1])
  }

  /** The suffix of length r + 1 of s is the suffix of length r of its front, then its last element. */
  lemma LastAppended(s: string, r: nat)
    requires r < |s|
    ensures s[|s| - (r + 1)..] == s[..|s| - 1][|s| - 1 - r..] + [s[|s| - 1]]
  {
  }

  lemma {:induction false} LcsCommon(a: string, b: string)
    ensures a[|a| - Lcs(a, b)..] == b[|b| - Lcs(a, b)..]
    decreases |a|
  {
    if |a| > 0 && |b| > 0 && a[|a| - 1] == b[|b| - 1] {
      var a', b' := a[..|a| - 1], b[..|b| - 1];
      var r' := Lcs(a', b');
      LcsCommon(a', b');
      LastAppended(a, r');
      LastAppended(b, r');
    }
  }

  /** Every common suffix is at most as long as the Lcs. */
  lemma {:induction false} LcsIsLongest(a: string, b: string, v: nat)
    requires v <= |a| && v <= |b| && a[|a| - v..] == b[|b| - v..]
    ensures v <= Lcs(a, b)
    decreases v
  {
    if v > 0 {
      LastAppended(a, v - 1);
      LastAppended(b, v - 1);
      assert a[|a| - 1] == a[|a| - v..][v - 1];
      assert b[|b| - 1] == b[|b| - v..][v - 1];
      LcsIsLongest(a[..|a| - 1], b[..|b| - 1], v - 1);
    }
  }

  /** The longest common suffix is the longest common prefix of the reversals. */
  lemma LcpOfReverses(a: string, b: string)
    ensures Lcp(Reverse(a), Reverse(b)) == Lcs(a, b)
  {
    var r := Lcs(a, b);
    var ra, rb := Reverse(a), Reverse(b);
    LcsCommon(a, b);
    forall t | 0 <= t < r ensures ra[t] == rb[t] {
      assert a[|a| - r..][r - 1 - t] == b[|b| - r..][r - 1 - t];
    }
    assert ra[..r] == rb[..r];
    if r < |a| && r < |b| {
      assert a[|a| - 1 - r] != b[|b| - 1 - r] by {
        if a[|a| - 1 - r] == b[|b| - 1 - r] {
          assert a[|a| - (r + 1)..] == [a[|a| - 1 - r]] + a[|a| - r..];
          assert b[|b| - (r + 1)..] == [b[|b| - 1 - r]] + b[|b| - r..];
          LcsIsLongest(a, b, r + 1);
        }
      }
    }
    LcpUnique(ra, rb, r);
  }

  /** a is a suffix of b exactly when their longest common suffix is all of a. */
  lemma LcsWhole(a: string, b: string)
    ensures Lcs(a, b) == |a| <==> |a| <= |b| && b[|b| - |a|..] == a
  {
    var r := Lcs(a, b);
    if |a| <= |b| && b[|b| - |a|..] == a {
      assert a[|a| - |a|..] == a;
      LcsIsLongest(a, b, |a|);
    }
    if r == |a| {
      LcsCommon(a, b);
      assert a[|a| - r..] == a;
    }
  }

  lemma LcsSelf(s: string)
    ensures Lcs(s, s) == |s|
  {
    LcsWhole(s, s);
  }

  /** The largest element of a non-empty sequence. */
  function MaxOf(s: seq<int>): (r: int)
    requires |s| > 0
    ensures forall k :: 0 <= k < |s| ==> s[k] <= r
    ensures exists k :: 0 <= k < |s| && s[k] == r
  {
    if |s| == 1 then s[0]
    else
      var r' := MaxOf(s[..|s| - 1]);
      assert forall k :: 0 <= k < |s| - 1 ==> s[..|s| - 1][k] == s[k];
      if r' < s[|s| - 1] then s[|s| - 1] else r'
  }
}
