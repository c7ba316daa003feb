/** Byte strings and their order: the order memcmp followed by a length comparison decides. */
module Bytes {

  type Byte = b: int | 0 <= b < 256

  type Key = seq<Byte>

  /** a and b agree on exactly n leading bytes. */
  ghost predicate AgreeUpTo(a: Key, b: Key, n: nat) {
    && n <= |a| && n <= |b|
    && a[..n] == b[..n]
    && (n == |a| || n == |b| || a[n] != b[n])
  }

  lemma {:induction false} CommonPrefixExists(a: Key, b: Key)
    ensures exists n: nat :: AgreeUpTo(a, b, n)
  {
    if |a| == 0 || |b| == 0 || a[0] != b[0] {
      assert AgreeUpTo(a, b, 0);
    } else {
      CommonPrefixExists(a[1..], b[1..]);
      var m: nat :| AgreeUpTo(a[1..], b[1..], m);
      assert a[..m + 1] == [a[0]] + a[1..][..m];
      assert b[..m + 1] == [b[0]] + b[1..][..m];
      assert AgreeUpTo(a, b, m + 1);
    }
  }

  /** Length of the longest common prefix. */
  ghost function CommonPrefix(a: Key, b: Key): (n: nat)
    ensures AgreeUpTo(a, b, n)
  {
    CommonPrefixExists(a, b);
    var n :| AgreeUpTo(a, b, n);
    n
  }

  /** Strict lexicographic order: decided at the first differing byte, else the shorter is less. */
  ghost predicate Less(a: Key, b: Key) {
    var n := CommonPrefix(a, b);
    n < |b| && (n == |a| || a[n] < b[n])
  }

  ghost predicate LessEq(a: Key, b: Key) {
    a == b || Less(a, b)
  }

  /** The defining property of CommonPrefix determines it. */
  lemma CommonPrefixIs(a: Key, b: Key, n: nat)
    requires AgreeUpTo(a, b, n)
    ensures CommonPrefix(a, b) == n
  {
    var m := CommonPrefix(a, b);
    assert forall i | 0 <= i < n :: a[..n][i] == b[..n][i];
    assert forall i | 0 <= i < m :: a[..m][i] == b[..m][i];
  }

  lemma CommonPrefixSym(a: Key, b: Key)
    ensures CommonPrefix(a, b) == CommonPrefix(b, a)
  {
    CommonPrefixIs(b, a, CommonPrefix(a, b));
  }

  lemma LessTotal(a: Key, b: Key)
    ensures a == b || Less(a, b) || Less(b, a)
    ensures !(Less(a, b) && Less(b, a))
    ensures !Less(a, a)
  {
    CommonPrefixSym(a, b);
    var n := CommonPrefix(a, b);
    if n == |a| == |b| {
      assert a == a[..n] && b == b[..n];
    }
    CommonPrefixIs(a, a, |a|);
  }

  lemma LessTrans(a: Key, b: Key, c: Key)
    requires Less(a, b) && Less(b, c)
    ensures Less(a, c)
  {
    var m := CommonPrefix(a, b);
    var n := CommonPrefix(b, c);
    var k := if m < n then m else n;
    assert a[..k] == a[..m][..k] == b[..m][..k] == b[..k];
    assert b[..k] == b[..n][..k] == c[..n][..k] == c[..k];
    if m < n {
      assert b[m] == b[..n][m] == c[..n][m] == c[m];
    } else if n < m {
      assert a[n] == a[..m][n] == b[..m][n] == b[n];
    }
    CommonPrefixIs(a, c, k);
  }

  lemma LessEqTrans(a: Key, b: Key, c: Key)
    requires LessEq(a, b) && LessEq(b, c)
    ensures LessEq(a, c)
    ensures Less(a, b) || Less(b, c) ==> Less(a, c)
  {
    if Less(a, b) && Less(b, c) {
      LessTrans(a, b, c);
    }
  }

  /** Stripping a shared prefix does not change the order. */
  lemma PrefixShift(p: Key, a: Key, b: Key)
    ensures CommonPrefix(p + a, p + b) == |p| + CommonPrefix(a, b)
    ensures Less(p + a, p + b) <==> Less(a, b)
  {
    var n := CommonPrefix(a, b);
    assert (p + a)[..|p| + n] == p + a[..n];
    assert (p + b)[..|p| + n] == p + b[..n];
    CommonPrefixIs(p + a, p + b, |p| + n);
  }

  /** A string between two strings starts with their common prefix. */
  lemma BetweenSharesPrefix(lo: Key, k: Key, hi: Key, n: nat)
    requires LessEq(lo, k) && LessEq(k, hi)
    requires n <= CommonPrefix(lo, hi)
    ensures |k| >= n && k[..n] == lo[..n]
  {
    var c := CommonPrefix(lo, hi);
    var m := CommonPrefix(lo, k);
    assert lo[..n] == lo[..c][..n] == hi[..c][..n] == hi[..n];
    if lo != k && m < n {
      // k leaves lo upwards before n, where hi still agrees with lo
      assert lo[m] == lo[..n][m] == hi[..n][m] == hi[m];
      assert lo[..m] == lo[..n][..m] == hi[..n][..m] == hi[..m];
      CommonPrefixIs(k, hi, m);
      LessTotal(k, hi);
    } else if lo != k {
      assert k[..n] == k[..m][..n] == lo[..m][..n] == lo[..n];
    }
  }

  /** key followed by a zero byte is the least string above key. */
  lemma ZeroSuccessor(u: Key, k: Key)
    ensures Less(u, u + [0])
    ensures Less(u, k) ==> LessEq(u + [0], k)
  {
    assert (u + [0])[..|u|] == u == u[..|u|];
    CommonPrefixIs(u, u + [0], |u|);
    if Less(u, k) {
      var n := CommonPrefix(u, k);
      if n < |u| {
        assert (u + [0])[..n] == u[..n];
        CommonPrefixIs(u + [0], k, n);
      } else {
        assert k[..n] == u;
        if k[n] == 0 {
          if |k| == n + 1 {
            assert k == k[..n] + [k[n]];
          } else {
            assert k[..n + 1] == u + [0] == (u + [0])[..n + 1];
            CommonPrefixIs(u + [0], k, n + 1);
          }
        } else {
          assert (u + [0])[..n] == u;
          CommonPrefixIs(u + [0], k, n);
        }
      }
    }
  }

  /** A proper prefix is less than the whole. */
  lemma PrefixLess(a: Key, n: nat)
    requires n <= |a|
    ensures LessEq(a[..n], a)
    ensures n < |a| ==> Less(a[..n], a)
  {
    if n < |a| {
      assert a[..n][..n] == a[..n];
      CommonPrefixIs(a[..n], a, n);
    } else {
      assert a[..n] == a;
    }
  }

  /** The empty string is the least. */
  lemma EmptyLeast(a: Key)
    ensures LessEq([], a)
    ensures !Less(a, [])
  {
  }

  /** Counts the leading bytes two strings share. */
  method MatchingBytes(a: Key, b: Key) returns (n: nat)
    ensures n == CommonPrefix(a, b)
  {
    n := 0;
    while n < |a| && n < |b| && a[n] == b[n]
      invariant n <= |a| && n <= |b| && a[..n] == b[..n]
    {
      n := n + 1;
    }
    CommonPrefixIs(a, b, n);
  }

  /** memcmp over the first min(|a|, |b|) bytes: the sign of the first difference, 0 if there is none. */
  function Memcmp(a: Key, b: Key): (c: int)
    ensures c < 0 ==> Less(a, b)
    ensures c > 0 ==> Less(b, a)
    ensures c == 0 && |a| < |b| ==> Less(a, b)
    ensures c == 0 && |a| > |b| ==> Less(b, a)
    ensures c == 0 && |a| == |b| ==> a == b
  {
    if |a| == 0 || |b| == 0 then
      assert |a| == 0 ==> AgreeUpTo(a, b, 0);
      EmptyLeast(a); EmptyLeast(b);
      0
    else if a[0] != b[0] then
      CommonPrefixIs(a, b, 0);
      CommonPrefixIs(b, a, 0);
      a[0] as int - b[0] as int
    else
      assert a == [a[0]] + a[1..] && b == [b[0]] + b[1..];
      PrefixShift([a[0]], a[1..], b[1..]);
      PrefixShift([a[0]], b[1..], a[1..]);
      Memcmp(a[1..], b[1..])
  }
}
