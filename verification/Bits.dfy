/** Words of bits as numbers. */
module Bits {

  predicate Bit(m: nat, i: nat) {
    if i == 0 then m % 2 == 1 else Bit(m / 2, i - 1)
  }

  /** m >> k */
  function Shr(m: nat, k: nat): nat {
    if k == 0 then m else Shr(m / 2, k - 1)
  }

  /** countr_zero of a mask of that many bits; all of them if no bit is set. */
  function CountTrailingZeros(m: nat, width: nat): (n: nat)
    ensures n <= width
  {
    if width == 0 || m % 2 == 1 then 0 else CountTrailingZeros(m / 2, width - 1) + 1
  }

  lemma {:induction false} TrailingZerosAre(m: nat, width: nat)
    ensures var n := CountTrailingZeros(m, width);
      (n < width ==> Bit(m, n)) && forall i | 0 <= i < n :: !Bit(m, i)
  {
    if width > 0 && m % 2 == 0 {
      TrailingZerosAre(m / 2, width - 1);
      forall i | 0 < i < CountTrailingZeros(m, width) ensures !Bit(m, i) {
        assert !Bit(m / 2, i - 1);
      }
    }
  }

  lemma {:induction false} ShiftBit(m: nat, k: nat, i: nat)
    ensures Bit(Shr(m, k), i) == Bit(m, i + k)
  {
    if k > 0 {
      ShiftBit(m / 2, k - 1, i);
    }
  }

  lemma {:induction false} ZeroHasNoBit(i: nat)
    ensures !Bit(0, i)
  {
    if i > 0 {
      ZeroHasNoBit(i - 1);
    }
  }

  /** m - 1 clears the lowest bit of a mask in which it is set, and nothing else. */
  lemma ClearsLowest(m: nat, i: nat)
    requires Bit(m, 0)
    ensures Bit(m - 1, i) <==> i > 0 && Bit(m, i)
  {
  }

  /** m | (1 << k) */
  function SetBit(m: nat, k: nat): nat {
    if k == 0 then m / 2 * 2 + 1 else m % 2 + 2 * SetBit(m / 2, k - 1)
  }

  /** m & ~(1 << k) */
  function ClearBit(m: nat, k: nat): nat {
    if k == 0 then m / 2 * 2 else m % 2 + 2 * ClearBit(m / 2, k - 1)
  }

  lemma {:induction false} SetBitIs(m: nat, k: nat, i: nat)
    ensures Bit(SetBit(m, k), i) <==> i == k || Bit(m, i)
  {
    if k > 0 && i > 0 {
      SetBitIs(m / 2, k - 1, i - 1);
    }
  }

  lemma {:induction false} ClearBitIs(m: nat, k: nat, i: nat)
    ensures Bit(ClearBit(m, k), i) <==> i != k && Bit(m, i)
  {
    if k > 0 && i > 0 {
      ClearBitIs(m / 2, k - 1, i - 1);
    }
  }
}
