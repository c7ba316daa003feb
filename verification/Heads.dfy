/** The 4-byte head of a key: its first bytes as an integer, padded with zeros. */
module Heads {
  import opened Bytes

  function Head(key: Key): nat {
    var b: seq<int> := key;
    match |b|
    case 0 => 0
    case 1 => b[0] * 0x100_0000
    case 2 => (b[0] * 0x100 + b[1]) * 0x1_0000
    case 3 => (b[0] * 0x100 + b[1]) * 0x1_0000 + b[2] * 0x100
    case _ => b[0] * 0x100_0000 + b[1] * 0x1_0000 + b[2] * 0x100 + b[3]
  }

  /** Heads preserve the order of keys, weakly: smaller keys never have larger heads. */
  lemma HeadMonotone(a: Key, b: Key)
    requires LessEq(a, b)
    ensures Head(a) <= Head(b)
  {
    var n := CommonPrefix(a, b);
    assert forall i | 0 <= i < n :: a[i] == a[..n][i] == b[..n][i] == b[i];
    assert 0 < n ==> a[0] == b[0];
    assert 1 < n ==> a[1] == b[1];
    assert 2 < n ==> a[2] == b[2];
    assert 3 < n ==> a[3] == b[3];
  }

  /** Equal heads mean equal first four bytes, where a shorter key is filled up with zeros. */
  lemma HeadIs(a: Key, b: Key)
    ensures |a| >= 4 && |b| >= 4 ==> (Head(a) == Head(b) <==> a[..4] == b[..4])
    ensures |a| < 4 ==> Head(a) == Head(a + [0])
  {
    if |a| >= 4 && |b| >= 4 {
      DigitsDecide(a[0], a[1], a[2], a[3], b[0], b[1], b[2], b[3]);
      assert a[..4] == [a[0], a[1], a[2], a[3]] && b[..4] == [b[0], b[1], b[2], b[3]];
    }
  }

  lemma DigitsDecide(a0: Byte, a1: Byte, a2: Byte, a3: Byte, b0: Byte, b1: Byte, b2: Byte, b3: Byte)
    ensures a0 * 0x100_0000 + a1 * 0x1_0000 + a2 * 0x100 + a3 == b0 * 0x100_0000 + b1 * 0x1_0000 + b2 * 0x100 + b3 <==>
      a0 == b0 && a1 == b1 && a2 == b2 && a3 == b3
  {
  }

  /** So a strict difference of heads decides the order of the keys. */
  lemma HeadDecides(a: Key, b: Key)
    requires Head(a) < Head(b)
    ensures Less(a, b)
  {
    LessTotal(a, b);
    if LessEq(b, a) {
      HeadMonotone(b, a);
    }
  }
}
