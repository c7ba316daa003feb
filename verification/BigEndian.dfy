/** Byte strings as big-endian numbers. */
module BigEndian {
  import opened Hiding
  import opened Bytes
  import opened Layout
  import opened Nodes

  /** Big-endian value of a byte string. */
  function Big(bs: seq<Byte>): nat {
    if |bs| == 0 then 0 else Big(bs[..|bs| - 1]) * 256 + bs[|bs| - 1]
  }

  function Zeros(n: nat): seq<Byte> {
    seq(n, _ => 0)
  }

  /** The first n bytes, filled up with zeros. */
  function Pad(k: Key, n: nat): seq<Byte> {
    if |k| < n then k + Zeros(n - |k|) else k[..n]
  }

  // ---- order ----

  lemma BigBound(bs: seq<Byte>)
    ensures Big(bs) < Pow256(|bs|)
  {
    if |bs| > 0 {
      BigBound(bs[..|bs| - 1]);
    }
  }

  lemma LessLast(a: Key, x: Byte, b: Key, y: Byte)
    requires |a| == |b|
    ensures Less(a + [x], b + [y]) <==> Less(a, b) || (a == b && x < y)
  {
    var n := CommonPrefix(a, b);
    if n < |a| {
      assert (a + [x])[..n] == a[..n] && (b + [y])[..n] == b[..n];
      CommonPrefixIs(a + [x], b + [y], n);
    } else {
      assert a == a[..n] && b == b[..n];
      PrefixShift(a, [x], [y]);
      CommonPrefixIs([x], [y], if x == y then 1 else 0);
      LessTotal(a, b);
    }
  }

  /** Byte strings of one length compare like their big-endian values. */
  lemma {:induction false} BigOrder(a: Key, b: Key)
    requires |a| == |b|
    ensures Big(a) < Big(b) <==> Less(a, b)
    ensures Big(a) == Big(b) <==> a == b
  {
    if |a| > 0 {
      var n := |a| - 1;
      BigOrder(a[..n], b[..n]);
      assert a == a[..n] + [a[n]] && b == b[..n] + [b[n]];
      LessLast(a[..n], a[n], b[..n], b[n]);
    }
  }

  lemma PadBytes(k: Key, n: nat)
    ensures |Pad(k, n)| == n
    ensures forall i | 0 <= i < n :: Pad(k, n)[i] == if i < |k| then k[i] else 0
  {
  }

  /** Strings that differ within the padded bytes keep their order when padded. */
  lemma PadDiffers(k: Key, s: Key, n: nat)
    requires CommonPrefix(k, s) < |k| && CommonPrefix(k, s) < |s| <= n
    ensures Less(Pad(k, n), Pad(s, n)) <==> Less(k, s)
    ensures Pad(k, n) != Pad(s, n)
  {
    var c := CommonPrefix(k, s);
    PadBytes(k, n);
    PadBytes(s, n);
    assert Pad(k, n)[c] == k[c] && Pad(s, n)[c] == s[c];
    assert Pad(k, n)[..c] == k[..c] && Pad(s, n)[..c] == s[..c];
    CommonPrefixIs(Pad(k, n), Pad(s, n), c);
  }

  /** Padding a prefix never makes it larger. */
  lemma PadPrefix(a: Key, b: Key, n: nat)
    requires a <= b && |a| <= n
    ensures LessEq(Pad(a, n), Pad(b, n))
  {
    PadBytes(a, n);
    PadBytes(b, n);
    var x, y := Pad(a, n), Pad(b, n);
    var c := CommonPrefix(x, y);
    if c < n {
      assert forall i | 0 <= i < |a| :: x[i] == a[i] == b[i] == y[i];
    } else {
      assert x == x[..c] && y == y[..c];
    }
  }

  // ---- bytes of a number ----

  /** The n bytes of an integer, most significant first. */
  function BigBytes(n: nat, x: nat): (bs: seq<Byte>)
    ensures |bs| == n
  {
    if n == 0 then [] else BigBytes(n - 1, x / 256) + [x % 256]
  }

  lemma {:induction false} BytesOfBig(bs: seq<Byte>)
    ensures BigBytes(|bs|, Big(bs)) == bs
  {
    if |bs| > 0 {
      BytesOfBig(bs[..|bs| - 1]);
    }
  }

  // ---- sums of products ----

  /** x == h * p + l; unfolded only where SumOf is mentioned, so that products stay out of sight. */
  ghost predicate Sum(x: int, h: int, p: int, l: int) {
    forall u: Unfold :: SumOf(u, x, h, p, l)
  }

  ghost predicate SumOf(u: Unfold, x: int, h: int, p: int, l: int) {
    x == h * p + l
  }

  lemma SumIs(x: int, h: int, p: int, l: int)
    requires x == h * p + l
    ensures Sum(x, h, p, l)
  {
    forall u: Unfold ensures SumOf(u, x, h, p, l) {}
  }

  lemma {:induction false} BigConcat(a: seq<Byte>, b: seq<Byte>)
    ensures Sum(Big(a + b), Big(a), Pow256(|b|), Big(b))
  {
    if |b| == 0 {
      assert a + b == a;
      SumIs(Big(a + b), Big(a), Pow256(|b|), Big(b));
    } else {
      var b', last := b[..|b| - 1], b[|b| - 1];
      BigConcat(a, b');
      assert (a + b)[..|a + b| - 1] == a + b';
      OneByteMore(Big(a + b'), Big(a), Pow256(|b'|), Big(b'), last);
    }
  }

  lemma BigSum(a: seq<Byte>, b: seq<Byte>)
    ensures Big(a + b) == Big(a) * Pow256(|b|) + Big(b)
  {
    BigConcat(a, b);
    assert SumOf(Unfold, Big(a + b), Big(a), Pow256(|b|), Big(b));
  }

  lemma OneByteMore(x: int, h: int, p: int, l: int, last: int)
    requires Sum(x, h, p, l)
    ensures Sum(x * 256 + last, h, 256 * p, l * 256 + last)
  {
    assert SumOf(Unfold, x, h, p, l);
    assert h * (256 * p) == 256 * (h * p);
    SumIs(x * 256 + last, h, 256 * p, l * 256 + last);
  }

  lemma {:induction false} BigZeros(n: nat)
    ensures Big(Zeros(n)) == 0
  {
    if n > 0 {
      assert Zeros(n)[..n - 1] == Zeros(n - 1);
      BigZeros(n - 1);
    }
  }

  lemma {:induction false} PowAdd(a: nat, b: nat)
    ensures Sum(Pow256(a + b), Pow256(a), Pow256(b), 0)
  {
    if a > 0 {
      PowAdd(a - 1, b);
      assert SumOf(Unfold, Pow256(a - 1 + b), Pow256(a - 1), Pow256(b), 0);
      Associate(256, Pow256(a - 1), Pow256(b));
      SumIs(Pow256(a + b), Pow256(a), Pow256(b), 0);
    } else {
      SumIs(Pow256(a + b), Pow256(a), Pow256(b), 0);
    }
  }

  lemma Associate(x: int, y: int, z: int)
    ensures x * (y * z) == (x * y) * z
  {
  }

  lemma {:induction false} PowPositive(n: nat)
    ensures Pow256(n) > 0
  {
    if n > 0 { PowPositive(n - 1); }
  }

  /** Shifting left by d bytes in an n-byte word drops the first d bytes and fills up with zeros. */
  lemma ShiftDrops(bs: seq<Byte>, d: nat)
    requires d <= |bs|
    ensures Pow256(|bs|) > 0 && (Big(bs) * Pow256(d)) % Pow256(|bs|) == Big(bs[d..] + Zeros(d))
  {
    PowPositive(|bs|);
    assert bs == bs[..d] + bs[d..];
    DropParts(bs, bs[..d], bs[d..], |bs| - d);
  }

  lemma DropParts(bs: seq<Byte>, hi: seq<Byte>, lo: seq<Byte>, n: nat)
    requires bs == hi + lo && |lo| == n && Pow256(|bs|) > 0
    ensures (Big(bs) * Pow256(|hi|)) % Pow256(|bs|) == Big(lo + Zeros(|hi|))
  {
    var d := |hi|;
    var x, h, p, l, q, w, z := Big(bs), Big(hi), Pow256(n), Big(lo), Pow256(d), Pow256(|bs|), Big(lo + Zeros(d));
    assert Sum(x, h, p, l) by { BigConcat(hi, lo); }
    assert Sum(w, p, q, 0) by { PowAdd(n, d); }
    assert Sum(z, l, q, 0) by { BigConcat(lo, Zeros(d)); BigZeros(d); }
    assert 0 <= z < w by { BigBound(lo + Zeros(d)); }
    ShiftArithmetic(x, h, p, l, q, w, z);
  }

  lemma ShiftArithmetic(x: nat, h: nat, p: nat, l: nat, q: nat, w: nat, z: nat)
    requires Sum(x, h, p, l) && Sum(w, p, q, 0) && Sum(z, l, q, 0) && 0 <= z < w
    ensures (x * q) % w == z
  {
    assert SumOf(Unfold, x, h, p, l) && SumOf(Unfold, w, p, q, 0) && SumOf(Unfold, z, l, q, 0);
    Distribute(h, p, l, q);
    ModIs(x * q, w, h, z);
  }

  lemma Distribute(h: int, p: int, l: int, q: int)
    ensures (h * p + l) * q == h * (p * q) + l * q
  {
    assert (h * p + l) * q == (h * p) * q + l * q;
    Associate(h, p, q);
  }

  lemma Gap(q: int, q': int, n: nat)
    requires q' > q
    ensures q' * n >= q * n + n
  {
    assert (q' - q) * n == q' * n - q * n;
    MulMonotone(n, 1, q' - q);
  }

  lemma DivMod(x: nat, n: nat)
    requires n > 0
    ensures x == (x / n) * n + x % n
  {
  }

  /** Quotient and remainder are unique. */
  lemma ModIs(x: nat, n: nat, q: nat, r: nat)
    requires n > 0 && x == q * n + r && r < n
    ensures x % n == r
  {
    DivMod(x, n);
    var q', r' := x / n, x % n;
    if q' > q { Gap(q, q', n); } else if q > q' { Gap(q', q, n); }
  }

  lemma ModScales(a: nat, m: nat)
    requires m > 0
    ensures (256 * a) % (256 * m) == 256 * (a % m)
  {
    DivMod(a, m);
    var q, r := a / m, a % m;
    assert 256 * a == q * (256 * m) + 256 * r;
    ModIs(256 * a, 256 * m, q, 256 * r);
  }
}
