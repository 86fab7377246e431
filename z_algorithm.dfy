/** Gusfield's Z-algorithm (bm.py, z_array). */
module ZAlgorithm {
  import opened Strings

  /** The Z-array by definition: Z[k] is the length of the longest common prefix of s[k..]
      and s. At k = 0 this is |s|, the convention z_array starts from. */
  function ZValues(s: string): (z: seq<int>)
    ensures |z| == |s|
    ensures |s| > 0 ==> z[0] == |s|
    ensures forall k :: 0 <= k < |s| ==> 0 <= z[k] <= |s| - k
  {
    LcpSelfAtZero(s);
    seq(|s|, k requires 0 <= k < |s| => Lcp(s[k..], s))
  }

  lemma LcpSelfAtZero(s: string)
    ensures |s| > 0 ==> Lcp(s[0..], s) == |s|
  {
    assert s[0..] == s;
    LcpSelf(s);
  }

  /** s[k..k+v] equals s[..v]. */
  ghost predicate PrefixMatch(s: string, k: nat, v: int)
  {
    0 <= v && k + v <= |s| && s[k..k + v] == s[..v]
  }

  /** v is the Z-value at k: a prefix match that cannot be extended by one more symbol. */
  ghost predicate IsZ(s: string, k: nat, v: int)
  {
    PrefixMatch(s, k, v) && (k + v == |s| || s[k + v] != s[v])
  }

  lemma IsZIsLcp(s: string, k: nat, v: int)
    requires k < |s| && IsZ(s, k, v)
    ensures v == Lcp(s[k..], s)
  {
    assert s[k..][..v] == s[k..k + v];
    LcpUnique(s[k..], s, v);
  }

  /** z starts with |s| and holds the Z-value at every k in [1, upTo). */
  ghost predicate ZUpTo(s: string, z: seq<int>, upTo: int)
  {
    |z| == |s| > 0 && z[0] == |s| && forall q :: 1 <= q < upTo && q < |s| ==> IsZ(s, q, z[q])
  }

  /** The Z-box [left, right] seen before position k: empty, or a prefix match starting at some
      1 <= left < k and ending at right. */
  ghost predicate ZBox(s: string, left: int, right: int, k: int)
  {
    (left == 0 && right == 0) || (1 <= left < k && PrefixMatch(s, left, right - left + 1))
  }

  /** Writing the Z-value at k extends ZUpTo by one position. */
  lemma ZUpToStep(s: string, z: seq<int>, k: nat, v: int)
    requires 1 <= k < |s| && ZUpTo(s, z, k) && IsZ(s, k, v)
    ensures ZUpTo(s, z[k := v], k + 1)
  {
  }

  /** A sequence that starts with |s| and holds the Z-value at every later k is ZValues(s). */
  lemma AllZIsZValues(s: string, z: seq<int>)
    requires ZUpTo(s, z, |s|)
    ensures z == ZValues(s)
  {
    forall q | 0 <= q < |s| ensures z[q] == ZValues(s)[q] {
      if q == 0 {
        LcpSelfAtZero(s);
      } else {
        IsZIsLcp(s, q, z[q]);
      }
    }
  }

  /** Inside a prefix match of length w at k, s[k + t] == s[t] for every t < w. */
  lemma PrefixMatchAt(s: string, k: nat, w: int, t: nat)
    requires PrefixMatch(s, k, w) && t < w
    ensures s[k + t] == s[t]
  {
    assert s[k..k + w][t] == s[..w][t];
  }

  /** Case 2a: the Z-box [left, right] covers s[k..right], which is a copy of
      s[k-left..right-left]; a shorter Z-value there carries over unchanged. */
  lemma {:induction false} BoxCopy(s: string, left: nat, right: nat, k: nat, v: int)
    requires 1 <= left < k <= right
    requires PrefixMatch(s, left, right - left + 1)
    requires IsZ(s, k - left, v) && v < right - k + 1
    ensures IsZ(s, k, v)
  {
    var w := right - left + 1;
    forall t | 0 <= t < v ensures s[k..k + v][t] == s[..v][t] {
      PrefixMatchAt(s, left, w, k - left + t);
      PrefixMatchAt(s, k - left, v, t);
    }
    PrefixMatchAt(s, left, w, k - left + v);
  }

  /** Case 2b: when the Z-value at k-left reaches the end of the box, s[k..right] still
      matches the prefix, and comparisons resume at right+1. */
  lemma {:induction false} BoxReach(s: string, left: nat, right: nat, k: nat, v: int)
    requires 1 <= left < k <= right
    requires PrefixMatch(s, left, right - left + 1)
    requires IsZ(s, k - left, v) && v >= right - k + 1
    ensures PrefixMatch(s, k, right - k + 1)
  {
    var w, u := right - left + 1, right - k + 1;
    forall t | 0 <= t < u ensures s[k..k + u][t] == s[..u][t] {
      PrefixMatchAt(s, left, w, k - left + t);
      PrefixMatchAt(s, k - left, v, t);
    }
  }

  /** The explicit comparison loop of z_array: starting at text position `from`, compare
      s[i] with s[i-k] until a mismatch or the end; `count` is the number of matches. */
  method ExtendMatch(s: string, k: nat, from: nat) returns (count: nat)
    requires 1 <= k <= from <= |s|
    requires PrefixMatch(s, k, from - k)
    ensures IsZ(s, k, from - k + count)
  {
    count := 0;
    var i := from;
    while i < |s|
      invariant from <= i <= |s|
      invariant count == i - from
      invariant PrefixMatch(s, k, i - k)
    {
      if s[i] != s[i - k] {
        break;
      }
      assert s[k..i + 1] == s[k..i] + [s[i]];
      assert s[..i + 1 - k] == s[..i - k] + [s[i - k]];
      count := count + 1;
      i := i + 1;
    }
  }

  /** One round of z_array's main loop at position k: case 1 compares from k when k lies
      outside the Z-box; case 2a copies Z[k - left] when that value ends inside the box; case 2b
      compares the symbols just past right otherwise. Z[k] is set and the Z-box moves to [k, k +
      Z[k] - 1] in cases 1 and 2b. */
  method ZRound(s: string, z: seq<int>, k: nat, left: int, right: int)
    returns (z': seq<int>, left': int, right': int)
    requires 2 <= k < |s| && ZUpTo(s, z, k) && ZBox(s, left, right, k)
    ensures |z'| == |z| && z' == z[k := z'[k]] && IsZ(s, k, z'[k])
    ensures ZBox(s, left', right', k + 1) && right' >= right
    ensures k <= right && right - k + 1 > z[k - left] ==> left' == left && right' == right
    ensures !(k <= right && right - k + 1 > z[k - left]) ==> left' == k && right' == k + z'[k] - 1
  {
    z', left', right' := z, left, right;
    if k > right {
      // Case 1: compare from k onward
      var zk := ExtendMatch(s, k, k);
      z' := z[k := zk];
      right', left' := k + zk - 1, k;
    } else if right - k + 1 > z[k - left] {
      // Case 2a: the Z-box already decides Z[k]
      BoxCopy(s, left, right, k, z[k - left]);
      z' := z[k := z[k - left]];
    } else {
      // Case 2b: compare the characters just past right
      BoxReach(s, left, right, k, z[k - left]);
      var matched := ExtendMatch(s, k, right + 1);
      left', right' := k, right + matched;
      z' := z[k := right' - k + 1];
    }
  }

  /** z_array: Gusfield's linear-time construction with a maintained Z-box [left, right]. */
  method ZArray(s: string) returns (z: seq<int>)
    requires |s| > 1
    ensures z == ZValues(s)
  {
    var n := |s|;
    z := [n] + seq(n - 1, _ => 0);

    // Initial comparison of s[1..] with the prefix
    var z1 := ExtendMatch(s, 1, 1);
    z := z[1 := z1];

    var right, left := 0, 0;
    if z[1] > 0 {
      right, left := z[1], 1;
    }

    var k := 2;
    while k < n
      invariant 2 <= k <= n && ZUpTo(s, z, k) && ZBox(s, left, right, k)
    {
      var next, left', right' := ZRound(s, z, k, left, right);
      ZUpToStep(s, z, k, next[k]);
      z, left, right := next, left', right';
      k := k + 1;
    }

    AllZIsZValues(s, z);
  }
}
