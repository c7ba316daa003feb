/** Whole separators packed into 4- or 8-byte integers whose order is the order of the byte strings. */
module PackedKeys {
  import opened Hiding
  import opened Bytes
  import opened Nodes
  import opened BigEndian

  /** makeSepHead: a separator shorter than the width, zero padded, its length in the last byte. */
  function PackSep(width: nat, s: Key): nat
    requires |s| < width <= 8
  {
    Big(Pad(s, width - 1) + [|s|])
  }

  /** makeNeedleHead: of a key of any length only the leading bytes; width stands for "longer than any separator". */
  function PackNeedle(width: nat, k: Key): nat
    requires 0 < width <= 8
  {
    Big(Pad(k, width - 1) + [if |k| < width then |k| else width])
  }

  // ---- order ----

  /** What the integers compare: padded bytes first, then the length byte. */
  lemma PackedOrder(width: nat, k: Key, s: Key)
    requires 0 < width <= 8 && |s| < width
    ensures PackNeedle(width, k) <= PackSep(width, s) <==>
      (Less(Pad(k, width - 1), Pad(s, width - 1))
       || (Pad(k, width - 1) == Pad(s, width - 1) && (if |k| < width then |k| else width) <= |s|))
  {
    var n := width - 1;
    PadBytes(k, n);
    PadBytes(s, n);
    LastDecides(Pad(k, n), if |k| < width then |k| else width, Pad(s, n), |s|);
  }

  lemma LastDecides(a: Key, x: Byte, b: Key, y: Byte)
    requires |a| == |b|
    ensures Big(a + [x]) <= Big(b + [y]) <==> Less(a, b) || (a == b && x <= y)
  {
    BigOrder(a + [x], b + [y]);
    LessLast(a, x, b, y);
  }

  /** Routing by integers equals routing by byte strings: for a separator shorter than the width and a key of any
      length, needle <= separator head exactly when key <= separator. */
  lemma NeedleOrder(width: nat, k: Key, s: Key)
    requires 0 < width <= 8 && |s| < width
    ensures PackNeedle(width, k) <= PackSep(width, s) <==> LessEq(k, s)
  {
    var n := width - 1;
    var c := CommonPrefix(k, s);
    PackedOrder(width, k, s);
    LessTotal(Pad(k, n), Pad(s, n));
    LessTotal(k, s);
    if c < |k| && c < |s| {
      PadDiffers(k, s, n);
    } else if c == |k| {
      assert k == k[..c] == s[..c];
      PadPrefix(k, s, n);
    } else {
      assert s == s[..c] == k[..c];
      PadPrefix(s, k, n);
    }
  }

  /** In particular separators compare like their heads. */
  lemma SepOrder(width: nat, a: Key, b: Key)
    requires 0 < width <= 8 && |a| < width && |b| < width
    ensures PackSep(width, a) <= PackSep(width, b) <==> LessEq(a, b)
    ensures PackSep(width, a) == PackSep(width, b) <==> a == b
  {
    NeedleOrder(width, a, b);
    NeedleOrder(width, b, a);
    LessTotal(a, b);
  }

  // ---- reading back ----

  function KeyLength(x: nat): nat {
    x % 256
  }

  /** The separator a packed integer holds. */
  function UnpackSep(width: nat, x: nat): Key
    requires width <= 8
  {
    if KeyLength(x) <= width then BigBytes(width, x)[..KeyLength(x)] else []
  }

  lemma UnpackPack(width: nat, s: Key)
    requires |s| < width <= 8
    ensures UnpackSep(width, PackSep(width, s)) == s
    ensures KeyLength(PackSep(width, s)) == |s|
    ensures PackSep(width, s) == Big(Pad(s, width - 1)) * 256 + |s| < Pow256(width)
  {
    var bs := Pad(s, width - 1) + [|s|];
    PadBytes(s, width - 1);
    assert bs[..|bs| - 1] == Pad(s, width - 1);
    BytesOfBig(bs);
    BigBound(bs);
    assert bs[..|s|] == s;
  }

  // ---- longer prefixes ----

  /** copyKeyValueRange under a longer prefix: the key bytes shift up, the length shrinks. */
  function Strip(width: nat, x: nat, diff: nat): nat
    requires width <= 8
  {
    Shifted(width, x, diff) + (if KeyLength(x) >= diff then KeyLength(x) - diff else 0)
  }

  lemma PadDrops(s: Key, d: nat, n: nat)
    requires d <= |s| <= n
    ensures Pad(s, n)[d..] + Zeros(d) == Pad(s[d..], n)
  {
    PadBytes(s, n);
    PadBytes(s[d..], n);
  }

  /** The key part of a stripped integer. */
  function Shifted(width: nat, x: nat, diff: nat): nat
    requires width <= 8
  {
    PowPositive(width);
    ((x - x % 256) * Pow256(diff)) % Pow256(width)
  }

  lemma ShiftedIs(x: nat, bs: seq<Byte>, length: nat, diff: nat)
    requires |bs| < 8 && x == Big(bs) * 256 + length && length < 256 && diff <= |bs|
    ensures Shifted(|bs| + 1, x, diff) == 256 * Big(bs[diff..] + Zeros(diff))
  {
    ShiftDrops(bs, diff);
    StripArithmetic(x, Big(bs), length, Pow256(diff), Pow256(|bs|), Pow256(|bs| + 1));
  }

  /** The stripped integer packs the stripped separator. */
  lemma StripIs(width: nat, s: Key, diff: nat)
    requires |s| < width <= 8 && diff <= |s|
    ensures Strip(width, PackSep(width, s), diff) == PackSep(width, s[diff..])
  {
    var n := width - 1;
    UnpackPack(width, s);
    UnpackPack(width, s[diff..]);
    PadBytes(s, n);
    PadDrops(s, diff, n);
    ShiftedIs(PackSep(width, s), Pad(s, n), |s|, diff);
  }

  lemma StripArithmetic(x: nat, b: nat, length: nat, p: nat, m: nat, w: nat)
    requires x == b * 256 + length && length < 256 && m > 0 && w == 256 * m
    ensures w > 0 && ((x - x % 256) * p) % w == 256 * ((b * p) % m)
  {
    assert x - x % 256 == b * 256;
    assert b * 256 * p == 256 * (b * p);
    ModScales(b * p, m);
  }

  // ---- changing the width ----

  /** convertToHead8WithSpace: four zero bytes between key and length. */
  function To8(x: nat): nat {
    (x - x % 256) * 0x1_0000_0000 + x % 256
  }

  /** convertToHead4WithSpace: the upper half, which ends in a zero byte, or the length. */
  function To4(x: nat): nat {
    x / 0x1_0000_0000 + x % 256
  }

  lemma PadLonger(s: Key)
    requires |s| < 4
    ensures Pad(s, 7) == Pad(s, 3) + Zeros(4)
  {
    PadBytes(s, 3);
    PadBytes(s, 7);
  }

  /** Both conversions keep the separator they pack. */
  lemma WidthChanges(s: Key)
    requires |s| < 4
    ensures To8(PackSep(4, s)) == PackSep(8, s) && To4(PackSep(8, s)) == PackSep(4, s)
  {
    UnpackPack(4, s);
    UnpackPack(8, s);
    PadLonger(s);
    BigConcat(Pad(s, 3), Zeros(4));
    BigZeros(4);
    assert Pow256(4) == 0x1_0000_0000;
    assert SumOf(Unfold, Big(Pad(s, 7)), Big(Pad(s, 3)), Pow256(4), 0);
  }
}
