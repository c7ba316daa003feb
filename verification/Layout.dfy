/** Page geometry, kept symbolic: the sizes the build fixes for leaves, inner nodes, header and slots. */
module Layout {

  datatype Sizes = Sizes(leaf: nat, inner: nat, header: nat, slot: nat)

  /** Bytes of a child pointer. */
  const CHILD_BYTES := 8

  /** Page offsets are 16 bit, so a page is smaller than 65536; a page holds at least a few slots. */
  type PageSizes = s: Sizes |
    0 < s.slot
    && s.header + 8 * (s.slot + CHILD_BYTES) <= s.leaf < 0x1_0000
    && s.header + 8 * (s.slot + CHILD_BYTES) <= s.inner < 0x1_0000
    witness Sizes(4096, 4096, 96, 10)

  const sizes: PageSizes

  function PageSize(isLeaf: bool): nat {
    if isLeaf then sizes.leaf else sizes.inner
  }

  /** Largest key plus payload that insert accepts. */
  function MaxKVSize(): (m: nat)
    ensures 3 * m <= PageSize(true) - sizes.header - 2 * sizes.slot
    ensures 3 * m <= PageSize(false) - sizes.header - 2 * sizes.slot
  {
    ((if sizes.leaf < sizes.inner then sizes.leaf else sizes.inner) - sizes.header - 2 * sizes.slot) / 3
  }

  /** A leaf or inner page is underfull when this much would be free after compaction. */
  function UnderFullSize(isLeaf: bool): nat {
    PageSize(isLeaf) / 4
  }

  /** Bytes of the first n slots. */
  function SlotBytes(n: nat): nat {
    if n == 0 then 0 else SlotBytes(n - 1) + sizes.slot
  }

  lemma {:induction false} SlotBytesAdd(m: nat, n: nat)
    ensures SlotBytes(m + n) == SlotBytes(m) + SlotBytes(n)
  {
    if n > 0 {
      SlotBytesAdd(m, n - 1);
    }
  }

  lemma SlotBytesMonotone(m: nat, n: nat)
    requires m <= n
    ensures SlotBytes(m) <= SlotBytes(n)
  {
    SlotBytesAdd(m, n - m);
  }

  /** Every slot takes at least a byte. */
  lemma {:induction false} SlotBytesAtLeast(n: nat)
    ensures n <= SlotBytes(n)
  {
    if n > 0 {
      SlotBytesAtLeast(n - 1);
    }
  }

  lemma {:induction false} SlotBytesIs(n: nat)
    ensures SlotBytes(n) == sizes.slot * n
  {
    if n > 0 {
      SlotBytesIs(n - 1);
      assert sizes.slot * n == sizes.slot * (n - 1) + sizes.slot;
    }
  }

  /** Slots a page has room for when it holds nothing else. */
  function SlotCapacity(isLeaf: bool): nat {
    (PageSize(isLeaf) - sizes.header) / sizes.slot
  }

  lemma {:induction false} MulMonotone(d: nat, a: int, b: nat)
    ensures a <= b ==> d * a <= d * b
    decreases b
  {
    if a < b {
      if b > 0 { MulMonotone(d, a, b - 1); }
      assert d * b == d * (b - 1) + d;
    }
  }

  lemma MulSign(a: int, b: int)
    ensures 0 <= a && 0 <= b ==> 0 <= a * b
    ensures a <= 0 && 0 <= b ==> a * b <= 0
  {
  }

  lemma DivideBound(room: int, d: nat, n: nat)
    requires d > 0 && d * n <= room
    ensures n <= room / d
  {
    var q := room / d;
    assert room == d * q + room % d;
    assert d * (q + 1) == d * q + d;
    MulMonotone(d, q + 1, n);
  }

  lemma SlotFits(isLeaf: bool, n: nat)
    requires sizes.header + SlotBytes(n) <= PageSize(isLeaf)
    ensures n <= SlotCapacity(isLeaf)
  {
    SlotBytesIs(n);
    DivideBound(PageSize(isLeaf) - sizes.header, sizes.slot, n);
  }

  lemma SlotCapacityPositive(isLeaf: bool)
    ensures 1 <= SlotCapacity(isLeaf)
  {
    assert SlotBytes(1) == sizes.slot;
    SlotFits(isLeaf, 1);
  }
}
