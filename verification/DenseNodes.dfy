/** DenseNode, first variant: a bitmap and an array of values indexed by the last four bytes of the key. */
module DenseNodes {
  import opened Hiding
  import opened Bytes
  import opened Bits
  import opened Layout
  import opened Nodes
  import opened Images
  import opened Separators
  import opened Pages
  import opened Scans
  import opened BigEndian
  import opened DenseKeys
  import opened DenseCells
  import HashImages

  // ---- the bitmap ----

  predicate BitAt(mask: seq<nat>, i: nat) {
    i / WORD_BITS < |mask| && Bit(mask[i / WORD_BITS], i % WORD_BITS)
  }

  /** A word of 64 bits. */
  ghost predicate IsWord(m: nat) {
    forall i: nat | i >= WORD_BITS :: !Bit(m, i)
  }

  ghost predicate WordsOk(mask: seq<nat>) {
    forall w | 0 <= w < |mask| :: IsWord(mask[w])
  }

  lemma SetBitAt(mask: seq<nat>, i: nat, j: nat)
    requires i / WORD_BITS < |mask|
    ensures var w := i / WORD_BITS;
      BitAt(mask[w := SetBit(mask[w], i % WORD_BITS)], j) <==> j == i || BitAt(mask, j)
  {
    SetBitIs(mask[i / WORD_BITS], i % WORD_BITS, j % WORD_BITS);
  }

  lemma ClearBitAt(mask: seq<nat>, i: nat, j: nat)
    requires i / WORD_BITS < |mask|
    ensures var w := i / WORD_BITS;
      BitAt(mask[w := ClearBit(mask[w], i % WORD_BITS)], j) <==> j != i && BitAt(mask, j)
  {
    ClearBitIs(mask[i / WORD_BITS], i % WORD_BITS, j % WORD_BITS);
  }

  lemma WordsKept(mask: seq<nat>, i: nat)
    requires i / WORD_BITS < |mask| && WordsOk(mask)
    ensures var w := i / WORD_BITS;
      WordsOk(mask[w := SetBit(mask[w], i % WORD_BITS)]) && WordsOk(mask[w := ClearBit(mask[w], i % WORD_BITS)])
  {
    var w := i / WORD_BITS;
    assert IsWord(mask[w]);
    forall b: nat | b >= WORD_BITS ensures !Bit(SetBit(mask[w], i % WORD_BITS), b) && !Bit(ClearBit(mask[w], i % WORD_BITS), b) {
      SetBitIs(mask[w], i % WORD_BITS, b);
      ClearBitIs(mask[w], i % WORD_BITS, b);
    }
  }

  lemma MaskWordsBound(slotCount: nat)
    ensures slotCount <= WORD_BITS * MaskWords(slotCount) < slotCount + WORD_BITS
  {
  }

  /** Bytes of the page as a word, the first the least significant. */
  function LittleEndian(bs: seq<Byte>): nat {
    if |bs| == 0 then 0 else bs[0] + 256 * LittleEndian(bs[1..])
  }

  lemma HalfOf(b: nat, unit: nat, x: nat)
    requires unit % 2 == 0
    ensures (b + unit * x) / 2 == b / 2 + unit / 2 * x
  {
    assert unit * x == 2 * (unit / 2 * x);
  }

  lemma ShrHalves(b: nat, x: nat)
    ensures Shr(b + 16 * x, 4) == b / 16 + x
  {
    HalfOf(b, 16, x);
    HalfOf(b / 2, 8, x);
    HalfOf(b / 4, 4, x);
    HalfOf(b / 8, 2, x);
    assert Shr(b / 16 + x, 0) == b / 16 + x;
    assert Shr(b / 8 + 2 * x, 1) == b / 16 + x;
    assert Shr(b / 4 + 4 * x, 2) == b / 16 + x;
    assert Shr(b / 2 + 8 * x, 3) == b / 16 + x;
  }

  lemma {:induction false} ShrTwice(x: nat, i: nat, j: nat)
    ensures Shr(x, i + j) == Shr(Shr(x, i), j)
  {
    if i > 0 { ShrTwice(x / 2, i - 1, j); }
  }

  lemma ShrByte(b: Byte, x: nat)
    ensures Shr(b + 256 * x, 8) == x
  {
    ShrTwice(b + 256 * x, 4, 4);
    ShrHalves(b, 16 * x);
    ShrHalves(b / 16, x);
  }

  lemma {:induction false} LittleEndianBits(bs: seq<Byte>, i: nat)
    ensures i >= 8 * |bs| ==> !Bit(LittleEndian(bs), i)
    ensures |bs| > 0 ==> (Bit(LittleEndian(bs), 0) <==> bs[0] % 2 == 1)
  {
    if |bs| == 0 {
      ZeroHasNoBit(i);
    } else if i >= 8 {
      LittleEndianBits(bs[1..], i - 8);
      ShrByte(bs[0], LittleEndian(bs[1..]));
      ShiftBit(LittleEndian(bs), 8, i - 8);
    }
  }

  lemma LoadedIsWord(bs: seq<Byte>)
    requires |bs| == WORD_BYTES
    ensures IsWord(LittleEndian(bs)) && (Bit(LittleEndian(bs), 0) <==> bs[0] % 2 == 1)
  {
    LittleEndianBits(bs, 0);
    forall i: nat | i >= WORD_BITS ensures !Bit(LittleEndian(bs), i) { LittleEndianBits(bs, i); }
  }

  // ---- cells ----

  /** The bit tells whether the cell is in use; then its bytes are the value. */
  ghost predicate CellOk(mask: seq<nat>, page: seq<Byte>, values: nat, valLen: nat, cells: seq<Option<seq<Byte>>>, i: nat)
    requires i < |cells|
  {
    && (BitAt(mask, i) <==> cells[i].Some?)
    && (cells[i].Some? ==> |cells[i].value| == valLen && HashImages.BytesAt(page, values + CellBytes(valLen, i), cells[i].value))
  }

  ghost predicate CellsOk(mask: seq<nat>, page: seq<Byte>, values: nat, valLen: nat, cells: seq<Option<seq<Byte>>>) {
    && (forall i | 0 <= i < |cells| :: CellOk(mask, page, values, valLen, cells, i))
    && (forall i: nat | i >= |cells| :: !BitAt(mask, i))
  }

  /** Setting a bit and writing the value into its cell changes that cell only. */
  lemma CellSet(mask: seq<nat>, page: seq<Byte>, values: nat, valLen: nat, cells: seq<Option<seq<Byte>>>, i: nat, v: seq<Byte>,
                mask': seq<nat>, page': seq<Byte>, cells': seq<Option<seq<Byte>>>)
    requires CellsOk(mask, page, values, valLen, cells) && i < |cells| && i / WORD_BITS < |mask| && |v| == valLen
    requires values + CellBytes(valLen, i) + |v| <= |page|
    requires mask' == mask[i / WORD_BITS := SetBit(mask[i / WORD_BITS], i % WORD_BITS)]
    requires page' == Write(page, values + CellBytes(valLen, i), v) && cells' == cells[i := Some(v)]
    ensures CellsOk(mask', page', values, valLen, cells')
  {
    forall j | 0 <= j < |cells'| ensures CellOk(mask', page', values, valLen, cells', j) {
      SetBitAt(mask, i, j);
      assert CellOk(mask, page, values, valLen, cells, j);
      CellValues(page, values, valLen, cells, i, v, page', cells', j);
    }
    forall j: nat | j >= |cells'| ensures !BitAt(mask', j) {
      SetBitAt(mask, i, j);
    }
  }

  /** After the write every cell in use still has its value in its place. */
  lemma CellValues(page: seq<Byte>, values: nat, valLen: nat, cells: seq<Option<seq<Byte>>>, i: nat, v: seq<Byte>,
                   page': seq<Byte>, cells': seq<Option<seq<Byte>>>, j: nat)
    requires i < |cells| && j < |cells| && |v| == valLen && values + CellBytes(valLen, i) + |v| <= |page|
    requires page' == Write(page, values + CellBytes(valLen, i), v) && cells' == cells[i := Some(v)]
    requires cells[j].Some? ==> |cells[j].value| == valLen && HashImages.BytesAt(page, values + CellBytes(valLen, j), cells[j].value)
    ensures cells'[j].Some? ==> |cells'[j].value| == valLen && HashImages.BytesAt(page', values + CellBytes(valLen, j), cells'[j].value)
  {
    var at, other := values + CellBytes(valLen, i), values + CellBytes(valLen, j);
    if j == i {
      HashImages.WriteIs(page, at, v);
    } else if cells[j].Some? {
      CellsApart(valLen, i, j);
      WriteElsewhere(page, at, v, page', other, cells[j].value);
    }
  }

  /** Writing one place leaves what is held at another alone. */
  lemma WriteElsewhere(page: seq<Byte>, at: nat, v: seq<Byte>, page': seq<Byte>, other: nat, u: seq<Byte>)
    requires at + |v| <= |page| && page' == Write(page, at, v) && HashImages.BytesAt(page, other, u)
    requires other + |u| <= at || at + |v| <= other
    ensures HashImages.BytesAt(page', other, u)
  {
    HashImages.WriteIs(page, at, v);
    HashImages.BytesAtKept(page, page', other, u);
  }

  /** The cells of two indices do not overlap. */
  lemma CellsApart(valLen: nat, i: nat, j: nat)
    requires i != j
    ensures CellBytes(valLen, i) + valLen <= CellBytes(valLen, j) || CellBytes(valLen, j) + valLen <= CellBytes(valLen, i)
  {
    if i < j { CellBytesMonotone(valLen, i, j); } else { CellBytesMonotone(valLen, j, i); }
  }

  lemma CellCleared(mask: seq<nat>, page: seq<Byte>, values: nat, valLen: nat, cells: seq<Option<seq<Byte>>>, i: nat)
    requires CellsOk(mask, page, values, valLen, cells) && i < |cells| && i / WORD_BITS < |mask|
    ensures var w := i / WORD_BITS;
      CellsOk(mask[w := ClearBit(mask[w], i % WORD_BITS)], page, values, valLen, cells[i := None])
  {
    var w := i / WORD_BITS;
    var mask', cells' := mask[w := ClearBit(mask[w], i % WORD_BITS)], cells[i := None];
    forall j | 0 <= j < |cells'| ensures CellOk(mask', page, values, valLen, cells', j) {
      ClearBitAt(mask, i, j);
      assert CellOk(mask, page, values, valLen, cells, j);
    }
    forall j: nat | j >= |cells'| ensures !BitAt(mask', j) {
      ClearBitAt(mask, i, j);
    }
  }

  /** Writing above the value cells does not disturb them. */
  lemma CellsKept(mask: seq<nat>, page: seq<Byte>, page': seq<Byte>, values: nat, valLen: nat, cells: seq<Option<seq<Byte>>>, end: nat)
    requires CellsOk(mask, page, values, valLen, cells) && values + CellBytes(valLen, |cells|) <= end
    requires HashImages.SameBytes(page, page', 0, end)
    ensures CellsOk(mask, page', values, valLen, cells)
  {
    forall i | 0 <= i < |cells| ensures CellOk(mask, page', values, valLen, cells, i) {
      assert CellOk(mask, page, values, valLen, cells, i);
      CellBytesMonotone(valLen, i, |cells|);
    }
  }

  /** Replacing a cell keeps the entries below and above it. */
  lemma ReplacedParts(d: Dense, d': Dense, i: nat)
    requires NumericPrefixLength(d.fullKeyLen) <= |d.lower| && i < |d.cells|
    requires d' == d.(cells := d'.cells) && |d'.cells| == |d.cells| && d'.cells == d.cells[i := d'.cells[i]]
    ensures d'.EntriesIn(0, i) == d.EntriesIn(0, i) && d'.EntriesIn(i + 1, |d.cells|) == d.EntriesIn(i + 1, |d.cells|)
  {
    EntriesSame(d, d', 0, i);
    EntriesSame(d, d', i + 1, |d.cells|);
  }

  lemma InThree(d: Dense, i: nat)
    requires NumericPrefixLength(d.fullKeyLen) <= |d.lower| && i < |d.cells|
    ensures d.Entries() == d.EntriesIn(0, i) + d.EntriesIn(i, i + 1) + d.EntriesIn(i + 1, |d.cells|)
    ensures |d.EntriesIn(i, i + 1)| == if d.Present(i) then 1 else 0
  {
    EntriesConcat(d, 0, i + 1, |d.cells|);
    EntriesConcat(d, 0, i, i + 1);
    assert d.EntriesIn(i, i) == [];
  }

  lemma ReplacedOk(d: Dense, d': Dense, i: nat)
    requires d.Ok() && i < |d.cells| && d' == d.(cells := d'.cells) && |d'.cells| == |d.cells| && d'.cells == d.cells[i := d'.cells[i]]
    requires d'.Present(i) ==> d.start + i < Pow256(NumericPartLen(d.fullKeyLen))
    ensures d'.Ok()
  {
    forall j | 0 <= j < |d'.cells| ensures d'.Fitting(j) { assert d.Fitting(j); }
  }

  /** Replacing a cell replaces its entry, if any. */
  lemma ReplacedCell(d: Dense, d': Dense, i: nat)
    requires d.Ok() && i < |d.cells| && d' == d.(cells := d'.cells) && |d'.cells| == |d.cells| && d'.cells == d.cells[i := d'.cells[i]]
    requires d'.Present(i) ==> d.start + i < Pow256(NumericPartLen(d.fullKeyLen))
    ensures d'.Ok()
    ensures |d'.Entries()| == |d.Entries()| - (if d.Present(i) then 1 else 0) + (if d'.Present(i) then 1 else 0)
    ensures d.Entries() == d.EntriesIn(0, i) + d.EntriesIn(i, i + 1) + d.EntriesIn(i + 1, |d.cells|)
    ensures d'.Entries() == d.EntriesIn(0, i) + d'.EntriesIn(i, i + 1) + d.EntriesIn(i + 1, |d.cells|)
  {
    ReplacedOk(d, d', i);
    ReplacedParts(d, d', i);
    InThree(d, i);
    InThree(d', i);
  }

  // ---- page images ----

  /** A dense page's memory and what it stands for. */
  datatype DenseImage = DenseImage(
    fullKeyLen: nat, arrayStart: nat, valLen: nat, slotCount: nat, lowerFenceLen: nat, upperFenceLen: nat, prefixLength: nat,
    mask: seq<nat>, page: seq<Byte>, lower: Key, upper: Key, cells: seq<Option<seq<Byte>>>)
  {
    function View(): Dense {
      Dense(lower, upper, fullKeyLen, arrayStart, cells)
    }

    /** Value cells start after the bitmap. */
    function Values(): nat {
      maskOffset + MaskWords(slotCount) * WORD_BYTES
    }

    function FenceStart(): int {
      FencesStart(lowerFenceLen, upperFenceLen, fullKeyLen)
    }

    ghost predicate FencesOk() {
      && |page| == sizes.leaf && lowerFenceLen == |lower| && upperFenceLen == |upper| && FenceStart() >= 0
      && HashImages.BytesAt(page, sizes.leaf - |lower|, lower) && HashImages.BytesAt(page, FenceStart(), upper)
      && prefixLength == CommonPrefix(lower, upper) <= fullKeyLen && fullKeyLen > 0
    }

    ghost predicate SlotsOk() {
      && |cells| == slotCount && |mask| == MaskWords(slotCount) && WordsOk(mask)
      && FenceStart() >= 0 && SlotsFit(slotCount, valLen, FenceStart())
      && CellsOk(mask, page, Values(), valLen, cells)
    }

    /** The layout of a page in use. Unfolded only where Complete is mentioned. */
    ghost predicate Ok() {
      forall u: Unfold :: Complete(u)
    }

    ghost predicate Complete(u: Unfold) {
      FencesOk() && SlotsOk() && View().Ok()
    }
  }

  /** DenseNode::fencesOffset: the upper fence may become any key of the full length. */
  function FencesStart(lowerLen: nat, upperLen: nat, fullKeyLen: nat): int {
    sizes.leaf - lowerLen - if upperLen < fullKeyLen then fullKeyLen else upperLen
  }

  lemma DenseOkIs(im: DenseImage)
    ensures im.Ok() <==> im.FencesOk() && im.SlotsOk() && im.View().Ok()
  {
    assert im.Ok() ==> im.Complete(Unfold);
  }

  /** Where things are in a dense page. */
  lemma DenseBounds(im: DenseImage)
    requires im.Ok()
    ensures |im.page| == sizes.leaf && |im.cells| == im.slotCount && |im.mask| == MaskWords(im.slotCount)
    ensures im.Values() + CellBytes(im.valLen, im.slotCount) <= im.FenceStart()
    ensures im.lowerFenceLen == |im.lower| && im.upperFenceLen == |im.upper|
    ensures im.prefixLength == CommonPrefix(im.lower, im.upper) <= im.fullKeyLen && im.fullKeyLen > 0
    ensures NumericPrefixLength(im.fullKeyLen) <= |im.lower| && im.View().Ok()
    ensures im.FenceStart() + |im.lower| + |im.upper| <= sizes.leaf
  {
    DenseOkIs(im);
  }

  /** The bitmap and the bytes say what a cell holds. */
  lemma CellReads(im: DenseImage, i: nat)
    requires im.Ok() && i < im.slotCount
    ensures i / WORD_BITS < |im.mask| && |im.cells| == im.slotCount && (BitAt(im.mask, i) <==> im.cells[i].Some?)
    ensures im.Values() + CellBytes(im.valLen, i) + im.valLen <= |im.page| == sizes.leaf
    ensures im.cells[i].Some? ==>
      im.cells[i].value == im.page[im.Values() + CellBytes(im.valLen, i)..im.Values() + CellBytes(im.valLen, i) + im.valLen]
  {
    DenseOkIs(im);
    MaskWordsBound(im.slotCount);
    CellBytesMonotone(im.valLen, i, im.slotCount);
    assert CellOk(im.mask, im.page, im.Values(), im.valLen, im.cells, i);
    if im.cells[i].Some? {
      HashImages.BytesAtIs(im.page, im.Values() + CellBytes(im.valLen, i), im.cells[i].value);
    }
  }

  /** What setting a bit and writing a value does to the page. */
  ghost predicate CellStored(was: DenseImage, now: DenseImage, i: nat, v: seq<Byte>) {
    && i < was.slotCount && i < |was.cells| && i / WORD_BITS < |was.mask| && |v| == was.valLen
    && was.Values() + CellBytes(was.valLen, i) + |v| <= |was.page|
    && now == was.(mask := now.mask, page := now.page, cells := was.cells[i := Some(v)])
    && now.mask == was.mask[i / WORD_BITS := SetBit(was.mask[i / WORD_BITS], i % WORD_BITS)]
    && now.page == Write(was.page, was.Values() + CellBytes(was.valLen, i), v)
  }

  lemma CellStoredSlots(was: DenseImage, now: DenseImage, i: nat, v: seq<Byte>)
    requires was.FencesOk() && was.SlotsOk() && CellStored(was, now, i, v)
    ensures now.SlotsOk()
  {
    CellSet(was.mask, was.page, was.Values(), was.valLen, was.cells, i, v, now.mask, now.page, now.cells);
    WordsKept(was.mask, i);
  }

  lemma CellStoredFences(was: DenseImage, now: DenseImage, i: nat, v: seq<Byte>)
    requires was.FencesOk() && was.SlotsOk() && CellStored(was, now, i, v)
    ensures now.FencesOk()
  {
    WriteKeepsFences(was, now, was.Values() + CellBytes(was.valLen, i), v, i);
  }

  /** Storing a value for an index whose number fits the key. */
  lemma SetCellOk(was: DenseImage, now: DenseImage, i: nat, v: seq<Byte>)
    requires was.Ok() && CellStored(was, now, i, v)
    requires was.arrayStart + i < Pow256(NumericPartLen(was.fullKeyLen))
    ensures now.Ok()
  {
    DenseOkIs(was);
    DenseOkIs(now);
    CellStoredSlots(was, now, i, v);
    CellStoredFences(was, now, i, v);
    ReplacedCell(was.View(), now.View(), i);
  }

  lemma WriteKeepsFences(was: DenseImage, now: DenseImage, at: nat, v: seq<Byte>, i: nat)
    requires was.FencesOk() && SlotsFit(was.slotCount, was.valLen, was.FenceStart()) && i < was.slotCount && |v| == was.valLen
    requires at == was.Values() + CellBytes(was.valLen, i) && at + |v| <= |was.page|
    requires now == was.(mask := now.mask, page := Write(was.page, at, v), cells := now.cells)
    ensures now.FencesOk()
  {
    CellBytesMonotone(was.valLen, i, was.slotCount);
    HashImages.WriteIs(was.page, at, v);
    HashImages.BytesAtKept(was.page, now.page, sizes.leaf - |was.lower|, was.lower);
    HashImages.BytesAtKept(was.page, now.page, was.FenceStart(), was.upper);
  }

  lemma ClearedSlots(was: DenseImage, now: DenseImage, i: nat)
    requires was.SlotsOk() && i < was.slotCount && i / WORD_BITS < |was.mask|
    requires now == was.(mask := was.mask[i / WORD_BITS := ClearBit(was.mask[i / WORD_BITS], i % WORD_BITS)], cells := was.cells[i := None])
    ensures now.SlotsOk()
  {
    CellCleared(was.mask, was.page, was.Values(), was.valLen, was.cells, i);
    WordsKept(was.mask, i);
  }

  lemma ClearedView(d: Dense, d': Dense, i: nat)
    requires d.Ok() && i < |d.cells| && d' == d.(cells := d.cells[i := None])
    ensures d'.Ok()
  {
    forall j | 0 <= j < |d'.cells| ensures d'.Fitting(j) { assert d.Fitting(j); }
  }

  lemma ClearCellOk(was: DenseImage, now: DenseImage, i: nat)
    requires was.Ok() && i < was.slotCount && i / WORD_BITS < |was.mask| && i < |was.cells|
    requires now == was.(mask := was.mask[i / WORD_BITS := ClearBit(was.mask[i / WORD_BITS], i % WORD_BITS)], cells := was.cells[i := None])
    ensures now.Ok()
  {
    DenseOkIs(was);
    DenseOkIs(now);
    ClearedSlots(was, now, i);
    ClearedView(was.View(), now.View(), i);
  }

  /** A page with fences and an empty bitmap. */
  lemma EmptyDenseOk(im: DenseImage)
    requires im.FencesOk() && SlotsFit(im.slotCount, im.valLen, im.FenceStart())
    requires im.cells == seq(im.slotCount, _ => None) && im.mask == seq(MaskWords(im.slotCount), _ => 0)
    requires NumericPrefixLength(im.fullKeyLen) <= |im.lower| && IsStart(im.arrayStart, im.lower, im.fullKeyLen)
    requires im.arrayStart < TWO_TO_THE_32
    ensures im.Ok() && im.View().Entries() == []
  {
    DenseOkIs(im);
    forall w | 0 <= w < |im.mask| ensures IsWord(im.mask[w]) {
      forall b: nat | b >= WORD_BITS ensures !Bit(im.mask[w], b) { ZeroHasNoBit(b); }
    }
    forall i: nat ensures !BitAt(im.mask, i) {
      if i / WORD_BITS < |im.mask| { ZeroHasNoBit(i % WORD_BITS); }
    }
    forall i | 0 <= i < |im.cells| ensures CellOk(im.mask, im.page, im.Values(), im.valLen, im.cells, i) {}
    forall i | 0 <= i < |im.cells| ensures im.View().Fitting(i) {}
    NonePresent(im.View(), 0, 0, im.slotCount);
  }

  lemma FencesWritten(page: seq<Byte>, lower: Key, upper: Key, at: nat)
    requires at + |upper| + |lower| <= |page|
    ensures var p := Write(Write(page, |page| - |lower|, lower), at, upper);
      HashImages.BytesAt(p, |page| - |lower|, lower) && HashImages.BytesAt(p, at, upper) && HashImages.SameBytes(page, p, 0, at)
  {
    var mid := Write(page, |page| - |lower|, lower);
    HashImages.WriteIs(page, |page| - |lower|, lower);
    HashImages.WriteIs(mid, at, upper);
    HashImages.BytesAtKept(mid, Write(mid, at, upper), |page| - |lower|, lower);
  }

  /** The fences written over a page's bytes. */
  function FreshPage(bytes: seq<Byte>, lower: Key, upper: Key, fullKeyLen: nat): seq<Byte>
    requires FencesStart(|lower|, |upper|, fullKeyLen) >= 0 && |bytes| == sizes.leaf
  {
    Write(Write(bytes, sizes.leaf - |lower|, lower), FencesStart(|lower|, |upper|, fullKeyLen), upper)
  }

  ghost function FreshImage(bytes: seq<Byte>, lower: Key, upper: Key, fullKeyLen: nat, arrayStart: nat, valLen: nat, slotCount: nat, prefix: nat): DenseImage
    requires FencesStart(|lower|, |upper|, fullKeyLen) >= 0 && |bytes| == sizes.leaf
  {
    DenseImage(fullKeyLen, arrayStart, valLen, slotCount, |lower|, |upper|, prefix,
               seq(MaskWords(slotCount), _ => 0), FreshPage(bytes, lower, upper, fullKeyLen), lower, upper, seq(slotCount, _ => None))
  }

  lemma FreshFences(im: DenseImage, bytes: seq<Byte>)
    requires im.lowerFenceLen == |im.lower| && im.upperFenceLen == |im.upper| && im.FenceStart() >= 0
    requires |bytes| == sizes.leaf && im.page == FreshPage(bytes, im.lower, im.upper, im.fullKeyLen)
    requires im.prefixLength == CommonPrefix(im.lower, im.upper) <= im.fullKeyLen && im.fullKeyLen > 0
    ensures im.FencesOk()
  {
    FencesWritten(bytes, im.lower, im.upper, im.FenceStart());
  }

  lemma FreshDenseOk(im: DenseImage, bytes: seq<Byte>)
    requires FencesStart(|im.lower|, |im.upper|, im.fullKeyLen) >= 0 && |bytes| == sizes.leaf
    requires im == FreshImage(bytes, im.lower, im.upper, im.fullKeyLen, im.arrayStart, im.valLen, im.slotCount, im.prefixLength)
    requires im.prefixLength == CommonPrefix(im.lower, im.upper) <= im.fullKeyLen && im.fullKeyLen > 0
    requires SlotsFit(im.slotCount, im.valLen, im.FenceStart()) && NumericPrefixLength(im.fullKeyLen) <= |im.lower|
    requires IsStart(im.arrayStart, im.lower, im.fullKeyLen) && im.arrayStart < TWO_TO_THE_32
    ensures im.Ok() && im.View().Entries() == []
  {
    FreshFences(im, bytes);
    EmptyDenseOk(im);
  }

  // ---- keys and cells ----

  /** A key of the array's range whose number is behind its end, by less than half its length. */
  ghost predicate JustBehind(im: DenseImage, key: Key) {
    im.View().InArray(key) && im.slotCount <= Numeric(key, im.fullKeyLen) - im.arrayStart < im.slotCount + im.slotCount / 2
  }

  /** keyToIndex of a key between the fences. */
  lemma IndexIs(im: DenseImage, key: Key)
    requires im.Ok() && Within(im.lower, im.upper, key)
    ensures im.prefixLength <= |key| && im.prefixLength <= |im.lower| && NumericPrefixLength(im.fullKeyLen) <= |im.lower|
    ensures var r := KeyToIndex(im.lower, im.prefixLength, im.fullKeyLen, im.arrayStart, im.slotCount, key);
      && (r.WrongLen? <==> |key| != im.fullKeyLen)
      && (r.Index? ==> r.i < im.slotCount == |im.cells| && im.View().InArray(key) && Numeric(key, im.fullKeyLen) == im.arrayStart + r.i)
      && (r.Index? <==> im.View().InArray(key) && Numeric(key, im.fullKeyLen) < im.arrayStart + im.slotCount)
      && (r.SlightlyTooLarge? <==> JustBehind(im, key))
      && (!r.Index? ==> im.View().Answer(key) == None)
      && (|key| == im.fullKeyLen && !r.Index? && !r.NotNumericRange? ==>
            im.View().InArray(key) && im.arrayStart + im.slotCount <= Numeric(key, im.fullKeyLen))
  {
    DenseBounds(im);
    WithinSharesPrefix(im.lower, im.upper, key);
    if |key| == im.fullKeyLen && im.lower == [] { EmptyLeast(key); }
    assert StartNow(Unfold, im.arrayStart, im.lower, im.fullKeyLen);
    KeyToIndexIs(im.lower, im.prefixLength, im.fullKeyLen, im.slotCount, key);
  }

  /** Entries of which each is one of es or e are between fences if those are. */
  lemma WithinToo(es: seq<Entry>, es': seq<Entry>, e: Entry, lower: Key, upper: Key)
    requires AllWithin(es, lower, upper) && Within(lower, upper, e.key)
    requires forall f | f in es' :: f == e || f in es
    ensures AllWithin(es', lower, upper)
  {
    forall j | 0 <= j < |es'| ensures Within(lower, upper, es'[j].key) {
      if es'[j] != e {
        assert es'[j] in es;
        var m :| 0 <= m < |es| && es[m] == es'[j];
      }
    }
  }

  /** Every entry of a dense page after a cell was stored was there before or is the new one. */
  lemma StoredEntries(d: Dense, d': Dense, i: nat, key: Key, v: seq<Byte>)
    requires d.Ok() && i < |d.cells| && d' == d.(cells := d.cells[i := Some(v)])
    requires d.InArray(key) && Numeric(key, d.fullKeyLen) == d.start + i
    ensures d.start + i < Pow256(NumericPartLen(d.fullKeyLen)) && d'.Ok()
    ensures |d'.Entries()| == |d.Entries()| + if d.Present(i) then 0 else 1
    ensures forall f | f in d'.Entries() :: f == Entry(key, v) || f in d.Entries()
  {
    KeyOfNumber(d, key, i);
    ReplacedCell(d, d', i);
    assert d'.EntriesIn(i, i) == [];
    assert d'.EntriesIn(i, i + 1) == [Entry(key, v)];
  }

  /** Storing under a key of the array changes its answer only. */
  lemma StoredAnswers(d: Dense, d': Dense, i: nat, key: Key, v: seq<Byte>, k: Key)
    requires d.Ok() && i < |d.cells| && d' == d.(cells := d.cells[i := Some(v)])
    requires d.InArray(key) && Numeric(key, d.fullKeyLen) == d.start + i
    ensures d'.Answer(k) == if k == key then Some(v) else d.Answer(k)
  {
    if d.InArray(k) && k != key {
      NumericOrder(k, key);
    }
  }

  lemma ClearedAnswers(d: Dense, d': Dense, i: nat, key: Key, k: Key)
    requires d.Ok() && i < |d.cells| && d' == d.(cells := d.cells[i := None])
    requires d.InArray(key) && Numeric(key, d.fullKeyLen) == d.start + i
    ensures d'.Answer(k) == if k == key then None else d.Answer(k)
  {
    if d.InArray(k) && k != key {
      NumericOrder(k, key);
    }
  }

  /** What storing a value under a key between the fences does to the contents. */
  lemma StoresUnder(d: Dense, d': Dense, i: nat, key: Key, v: seq<Byte>, occupied: nat)
    requires d.Ok() && i < |d.cells| && d' == d.(cells := d.cells[i := Some(v)])
    requires d.InArray(key) && Numeric(key, d.fullKeyLen) == d.start + i
    requires Counted(d, occupied) && Within(d.lower, d.upper, key)
    ensures d.start + i < Pow256(NumericPartLen(d.fullKeyLen))
    ensures Counted(d', occupied + if d.Present(i) then 0 else 1)
    ensures AnswersSet(d, d', key, Some(v))
  {
    forall k ensures AnswerSet(d, d', key, Some(v), k) {
      StoredAnswers(d, d', i, key, v, k);
    }
    CountedIs(d, occupied);
    CountedIs(d', occupied + if d.Present(i) then 0 else 1);
    StoredEntries(d, d', i, key, v);
    WithinToo(d.Entries(), d'.Entries(), Entry(key, v), d.lower, d.upper);
  }

  /** The answers of d' are those of d but for key. */
  ghost predicate AnswersSet(d: Dense, d': Dense, key: Key, value: Option<seq<Byte>>) {
    forall k :: AnswerSet(d, d', key, value, k)
  }

  ghost predicate AnswerSet(d: Dense, d': Dense, key: Key, value: Option<seq<Byte>>, k: Key) {
    d'.Answer(k) == if k == key then value else d.Answer(k)
  }

  lemma ClearedEntries(d: Dense, d': Dense, i: nat)
    requires d.Ok() && i < |d.cells| && d.Present(i) && d' == d.(cells := d.cells[i := None])
    ensures d'.Ok() && |d'.Entries()| == |d.Entries()| - 1
    ensures forall f | f in d'.Entries() :: f in d.Entries()
  {
    ReplacedCell(d, d', i);
    NonePresent(d', i, i, i + 1);
  }

  lemma ClearsUnder(d: Dense, d': Dense, i: nat, key: Key, occupied: nat)
    requires d.Ok() && i < |d.cells| && d.Present(i) && d' == d.(cells := d.cells[i := None])
    requires d.InArray(key) && Numeric(key, d.fullKeyLen) == d.start + i
    requires Counted(d, occupied) && Within(d.lower, d.upper, key)
    ensures occupied > 0 && Counted(d', occupied - 1)
    ensures AnswersSet(d, d', key, None)
  {
    forall k ensures AnswerSet(d, d', key, None, k) {
      ClearedAnswers(d, d', i, key, k);
    }
    CountedIs(d, occupied);
    ClearedEntries(d, d', i);
    CountedIs(d', occupied - 1);
    WithinToo(d.Entries(), d'.Entries(), Entry(key, []), d.lower, d.upper);
  }

  // ---- conversion ----

  /** What copyKeyValueRangeToBasic stores of the key with that index: what is left of the lower fence's bytes and
      the number, or only the last bytes of the number when the prefix reaches into it. */
  function StoredBytes(lower: Key, fullKeyLen: nat, arrayStart: nat, prefixLength: nat, i: nat): Key
    requires prefixLength <= fullKeyLen && NumericPrefixLength(fullKeyLen) <= |lower|
  {
    var npLen := NumericPartLen(fullKeyLen);
    var numericPart := BigBytes(4, Word32(arrayStart + i));
    if fullKeyLen - npLen > prefixLength then lower[prefixLength..fullKeyLen - npLen] + numericPart[4 - npLen..]
    else numericPart[4 - (fullKeyLen - prefixLength)..]
  }

  lemma StoredBytesAre(d: Dense, prefixLength: nat, i: nat)
    requires prefixLength <= d.fullKeyLen && NumericPrefixLength(d.fullKeyLen) <= |d.lower|
    ensures StoredBytes(d.lower, d.fullKeyLen, d.start, prefixLength, i) == d.KeyAt(i)[prefixLength..]
  {
    KeyAtRestores(d, i);
    StoredPart(d.KeyAt(i), d.lower, d.fullKeyLen, prefixLength, BigBytes(4, Word32(d.start + i)), NumericPartLen(d.fullKeyLen));
  }

  /** A key without its first p bytes, in the two cases the source tells apart. */
  lemma StoredPart(k: Key, lower: Key, f: nat, p: nat, numericPart: Key, npLen: nat)
    requires |numericPart| == 4 && npLen <= 4 && npLen <= f && f - npLen <= |lower| && p <= f
    requires k == lower[..f - npLen] + numericPart[4 - npLen..]
    ensures k[p..] == if f - npLen > p then lower[p..f - npLen] + numericPart[4 - npLen..] else numericPart[4 - (f - p)..]
  {
  }

  /** The last bytes of the number of an index. */
  function NumberBytes(fullKeyLen: nat, arrayStart: nat, i: nat): (bs: Key)
    ensures |bs| == NumericPartLen(fullKeyLen)
  {
    BigBytes(4, Word32(arrayStart + i))[4 - NumericPartLen(fullKeyLen)..]
  }

  lemma KeyAtParts(d: Dense, i: nat)
    requires NumericPrefixLength(d.fullKeyLen) <= |d.lower|
    ensures d.KeyAt(i) == d.lower[..NumericPrefixLength(d.fullKeyLen)] + NumberBytes(d.fullKeyLen, d.start, i)
  {
    KeyAtRestores(d, i);
  }

  /** The next entry to copy. */
  lemma NextEntry(d: Dense, i: nat)
    requires NumericPrefixLength(d.fullKeyLen) <= |d.lower| && i < |d.cells|
    ensures var n := |d.EntriesIn(0, i)|;
      && n <= |d.Entries()| && |d.EntriesIn(0, i + 1)| == n + (if d.Present(i) then 1 else 0)
      && (d.Present(i) ==> n < |d.Entries()| && d.Entries()[n] == Entry(d.KeyAt(i), d.cells[i].value))
  {
    EntriesConcat(d, 0, i + 1, |d.cells|);
  }

  /** Entries with keys and payloads of one length each. */
  lemma {:induction false} UniformSize(es: seq<Entry>, prefix: nat, keyLen: nat, valLen: nat, n: nat)
    requires n <= |es| && prefix <= keyLen && forall i | 0 <= i < |es| :: |es[i].key| == keyLen && |es[i].payload| == valLen
    ensures SizeUpTo(es, prefix, n) == CellBytes(keyLen - prefix + valLen, n)
  {
    if n > 0 {
      UniformSize(es, prefix, keyLen, valLen, n - 1);
    }
  }

  lemma DenseSizes(im: DenseImage)
    requires im.Ok() && NumericPrefixLength(im.fullKeyLen) <= |im.lower|
    ensures forall i | 0 <= i < |im.View().Entries()| ::
      |im.View().Entries()[i].key| == im.fullKeyLen && |im.View().Entries()[i].payload| == im.valLen
  {
    var es := im.View().Entries();
    DenseOkIs(im);
    forall j | 0 <= j < |es| ensures |es[j].key| == im.fullKeyLen && |es[j].payload| == im.valLen {
      var i := CellOf(im.View(), 0, im.slotCount, j);
      assert CellOk(im.mask, im.page, im.Values(), im.valLen, im.cells, i);
    }
  }

  /** The space the entries take in a plain page with the same fences. */
  lemma DenseSpace(im: DenseImage, n: nat)
    requires im.Ok() && NumericPrefixLength(im.fullKeyLen) <= |im.lower| && n == |im.View().Entries()|
    ensures im.prefixLength <= im.fullKeyLen
    ensures SpaceUsed(Node(true, im.lower, im.upper, im.View().Entries(), 0))
         == |im.lower| + |im.upper| + CellBytes(im.fullKeyLen - im.prefixLength + im.valLen, n)
  {
    DenseBounds(im);
    DenseSizes(im);
    UniformSize(im.View().Entries(), im.prefixLength, im.fullKeyLen, im.valLen, n);
  }

  /** A plain page with the same fences has room for the entries when they fit. */
  lemma BasicRoom(im: DenseImage, occupied: nat)
    requires im.Ok() && NumericPrefixLength(im.fullKeyLen) <= |im.lower| && Counted(im.View(), occupied)
    requires var es := im.View().Entries(); sizes.header + SlotBytes(|es|) + SpaceUsed(Node(true, im.lower, im.upper, es, 0)) <= sizes.leaf
    ensures var es := im.View().Entries(); var offset := sizes.leaf - |im.lower| - |im.upper|;
      && AllStartWith(es, FencePrefix(im.lower, im.upper)) && sizes.header + |im.lower| + |im.upper| <= sizes.leaf
      && RoomFor(es, 0, im.prefixLength, |es|, offset)
  {
    var es := im.View().Entries();
    DenseBounds(im);
    DenseSizes(im);
    StoredSizeNonNegative(es, im.prefixLength);
    CountedIs(im.View(), occupied);
    EntriesShare(es, im.lower, im.upper);
    assert es[0..] == es;
    RoomForIs(es, 0, im.prefixLength, |es|, sizes.leaf - |im.lower| - |im.upper|);
  }

  /** insert's guard before it converts reckons with the new payload's length. That is enough for the values
      the page holds if they are not longer. */
  lemma GuardSuffices(n: nat, keyLen: nat, valLen: nat, payloadLen: nat)
    requires payloadLen >= valLen
    ensures SlotBytes(n) + CellBytes(keyLen + valLen, n) <= n * (keyLen + payloadLen + sizes.slot)
  {
    SlotBytesIs(n);
    CellBytesIs(keyLen + valLen, n);
    MulMonotone(n, keyLen + valLen, keyLen + payloadLen);
    assert n * (keyLen + payloadLen + sizes.slot) == n * (keyLen + payloadLen) + n * sizes.slot;
    assert n * sizes.slot == sizes.slot * n;
  }

  datatype DenseInsert =
    | Stored                                              // the value went into its cell
    | Refused                                             // insert returned false
    | Converted(basic: BTreeNode, inserted: InsertResult) // the page became a plain one, which got the entry or not
    | Overflows                                           // converted although the plain page has not enough room

  /** Fences are in order, all keys between them, and occupied counts the entries. Unfolded only where CountedNow is
      mentioned. */
  ghost predicate Counted(d: Dense, occupied: nat) {
    forall u: Unfold :: CountedNow(u, d, occupied)
  }

  ghost predicate CountedNow(u: Unfold, d: Dense, occupied: nat) {
    && NumericPrefixLength(d.fullKeyLen) <= |d.lower| && (d.upper == [] || LessEq(d.lower, d.upper))
    && AllWithin(d.Entries(), d.lower, d.upper) && occupied == |d.Entries()|
  }

  lemma CountedIs(d: Dense, occupied: nat)
    ensures Counted(d, occupied) <==> NumericPrefixLength(d.fullKeyLen) <= |d.lower| && (d.upper == [] || LessEq(d.lower, d.upper))
                                      && AllWithin(d.Entries(), d.lower, d.upper) && occupied == |d.Entries()|
  {
    assert Counted(d, occupied) ==> CountedNow(Unfold, d, occupied);
  }

  /** The guard of insert reckons with the size of a plain page that has the same keys, each with as long a payload. */
  lemma GuardIs(im: DenseImage, es: seq<Entry>, payloadLen: nat)
    requires im.Ok() && NumericPrefixLength(im.fullKeyLen) <= |im.lower| && |es| == |im.View().Entries()|
    requires forall i | 0 <= i < |es| :: es[i].key == im.View().Entries()[i].key && |es[i].payload| == payloadLen
    ensures im.prefixLength <= im.fullKeyLen
    ensures FreeAfterCompaction(Node(true, im.lower, im.upper, es, 0)) >= 0 <==>
      |es| * (im.fullKeyLen - im.prefixLength + payloadLen + sizes.slot) + |im.lower| + |im.upper| + sizes.header <= sizes.leaf
  {
    DenseBounds(im);
    DenseSizes(im);
    PlainSize(es, im.lower, im.upper, im.fullKeyLen, payloadLen);
  }

  lemma PlainSize(es: seq<Entry>, lower: Key, upper: Key, keyLen: nat, payloadLen: nat)
    requires CommonPrefix(lower, upper) <= keyLen
    requires forall i | 0 <= i < |es| :: |es[i].key| == keyLen && |es[i].payload| == payloadLen
    ensures FreeAfterCompaction(Node(true, lower, upper, es, 0)) ==
      sizes.leaf - sizes.header - |lower| - |upper| - |es| * (keyLen - CommonPrefix(lower, upper) + payloadLen + sizes.slot)
  {
    var n, entry := |es|, keyLen - CommonPrefix(lower, upper) + payloadLen;
    UniformSize(es, CommonPrefix(lower, upper), keyLen, payloadLen, n);
    CellBytesIs(entry, n);
    SlotBytesIs(n);
    assert n * (entry + sizes.slot) == n * entry + n * sizes.slot;
    assert n * sizes.slot == sizes.slot * n && n * entry == entry * n;
  }

  // ---- a conversion that overflows ----

  /** Eight values as long as a dense page without fences has room for. */
  ghost function EightLong(valLen: nat): DenseImage {
    DenseImage(4, LeastNumber([], 4), valLen, 8, 0, 0, 0, [255], seq(sizes.leaf, _ => 0), [], [], seq(8, _ => Some(seq(valLen, _ => 0))))
  }

  lemma EightBits()
    ensures WordsOk([255]) && forall i: nat :: BitAt([255], i) <==> i < 8
  {
    assert Shr(255, 1) == 127 && Shr(255, 2) == 63 && Shr(255, 3) == 31 && Shr(255, 4) == 15;
    assert Shr(255, 5) == 7 && Shr(255, 6) == 3 && Shr(255, 7) == 1 && Shr(255, 8) == 0;
    forall i: nat ensures BitAt([255], i) <==> i < 8 {
      if i < 8 {
        ShiftBit(255, i, 0);
      } else {
        ShiftBit(255, 8, i - 8);
        ZeroHasNoBit(i - 8);
      }
    }
    forall i: nat | i >= WORD_BITS ensures !Bit(255, i) {
      ShiftBit(255, 8, i - 8);
      ZeroHasNoBit(i - 8);
    }
  }

  lemma {:induction false} AllEntries(d: Dense, n: nat)
    requires NumericPrefixLength(d.fullKeyLen) <= |d.lower| && forall i | 0 <= i < n :: d.Present(i)
    ensures |d.EntriesIn(0, n)| == n
  {
    if n > 0 { AllEntries(d, n - 1); }
  }

  lemma ZerosAt(page: seq<Byte>, offset: nat, n: nat)
    requires page == seq(sizes.leaf, _ => 0) && offset + n <= sizes.leaf
    ensures HashImages.BytesAt(page, offset, seq(n, _ => 0)) && seq(0, _ => 0) == []
  {
    HashImages.BytesAtIs(page, offset, seq(n, _ => 0));
  }

  lemma EightLongOk(valLen: nat)
    requires maskOffset + WORD_BYTES + 8 * valLen + 4 <= sizes.leaf
    ensures EightLong(valLen).Ok() && Counted(EightLong(valLen).View(), 8)
  {
    var im := EightLong(valLen);
    CommonPrefixIs([], [], 0);
    CellBytesIs(valLen, 8);
    EightBits();
    forall i: nat | i < 8 ensures CellOk(im.mask, im.page, im.Values(), valLen, im.cells, i) {
      CellBytesMonotone(valLen, i, 8);
      ZerosAt(im.page, im.Values() + CellBytes(valLen, i), valLen);
    }
    ZerosAt(im.page, sizes.leaf, 0);
    ZerosAt(im.page, im.FenceStart(), 0);
    assert im.FencesOk();
    assert im.SlotsOk();
    assert Pow256(4) > 8 by { assert Pow256(2) == 0x1_0000 && Pow256(3) == 0x100_0000; }
    DenseOkIs(im);
    AllEntries(im.View(), 8);
    CountedIs(im.View(), 8);
  }

  /** The page holds eight entries. Without their payloads they would fit a plain page, so an entry without payload has
      it converted, though a plain page has not enough room for the eight. */
  lemma OverflowExists() returns (valLen: nat)
    requires maskOffset <= sizes.header
    ensures var im := EightLong(valLen); im.Ok() && Counted(im.View(), 8) && NumericPrefixLength(4) <= |im.lower|
    ensures var all := EightLong(valLen).View().Entries();
      && FreeAfterCompaction(Node(true, [], [], all, 0)) < 0
      && forall es: seq<Entry> | |es| == |all| && (forall i | 0 <= i < |es| :: es[i].key == all[i].key && es[i].payload == []) ::
        FreeAfterCompaction(Node(true, [], [], es, 0)) >= 0
  {
    valLen := (sizes.leaf - maskOffset - WORD_BYTES - 4) / 8;
    var im := EightLong(valLen);
    EightLongOk(valLen);
    CountedIs(im.View(), 8);
    DenseSpace(im, 8);
    CellBytesIs(4 + valLen, 8);
    SlotBytesIs(8);
    var all := im.View().Entries();
    forall es: seq<Entry> | |es| == |all| && (forall i | 0 <= i < |es| :: es[i].key == all[i].key && es[i].payload == [])
      ensures FreeAfterCompaction(Node(true, [], [], es, 0)) >= 0
    {
      GuardIs(im, es, 0);
    }
  }

  // ---- dense pages ----

  class DenseNode {
    var fullKeyLen: nat
    var arrayStart: nat
    var valLen: nat
    var slotCount: nat
    var occupiedCount: nat
    var lowerFenceLen: nat
    var upperFenceLen: nat
    var prefixLength: nat
    var mask: seq<nat>
    /** The page's bytes but for the bitmap. */
    var page: seq<Byte>

    ghost var lowerKey: Key
    ghost var upperKey: Key
    ghost var cells: seq<Option<seq<Byte>>>

    ghost function Image(): DenseImage
      reads this
    {
      DenseImage(fullKeyLen, arrayStart, valLen, slotCount, lowerFenceLen, upperFenceLen, prefixLength, mask, page, lowerKey, upperKey, cells)
    }

    ghost function View(): Dense
      reads this
    {
      Image().View()
    }

    ghost predicate Layout()
      reads this
    {
      Image().Ok()
    }

    /** All keys are between the fences, and occupiedCount counts them. */
    ghost predicate Valid()
      reads this
    {
      Layout() && NumericPrefixLength(fullKeyLen) <= |lowerKey| && Counted(View(), occupiedCount)
    }

    /** The page as a sorted leaf. */
    ghost function AsNode(): Node
      requires NumericPrefixLength(fullKeyLen) <= |lowerKey|
      reads this
    {
      Node(true, lowerKey, upperKey, View().Entries(), 0)
    }

    constructor (lower: Key, upper: Key, fullKeyLen: nat, arrayStart: nat, valLen: nat, slotCount: nat, prefix: nat)
      requires FencesStart(|lower|, |upper|, fullKeyLen) >= 0
      ensures Image() == FreshImage(seq(sizes.leaf, _ => 0), lower, upper, fullKeyLen, arrayStart, valLen, slotCount, prefix)
      ensures occupiedCount == 0
    {
      this.fullKeyLen, this.valLen, this.slotCount, this.arrayStart := fullKeyLen, valLen, slotCount, arrayStart;
      occupiedCount := 0;
      lowerFenceLen, upperFenceLen, prefixLength := |lower|, |upper|, prefix;
      mask := seq(MaskWords(slotCount), _ => 0);
      page := FreshPage(seq(sizes.leaf, _ => 0), lower, upper, fullKeyLen);
      lowerKey, upperKey, cells := lower, upper, seq(slotCount, _ => None);
    }

    /** A page with fences, an empty bitmap and room for slotCount values. */
    static method NewPage(lower: Key, upper: Key, fullKeyLen: nat, arrayStart: nat, valLen: nat, slotCount: nat) returns (p: DenseNode)
      requires FencesStart(|lower|, |upper|, fullKeyLen) >= 0 && SlotsFit(slotCount, valLen, FencesStart(|lower|, |upper|, fullKeyLen))
      requires NumericPrefixLength(fullKeyLen) <= |lower| && IsStart(arrayStart, lower, fullKeyLen) && arrayStart < TWO_TO_THE_32
      requires CommonPrefix(lower, upper) <= fullKeyLen && fullKeyLen > 0
      ensures fresh(p) && p.Layout() && p.lowerKey == lower && p.upperKey == upper && p.fullKeyLen == fullKeyLen
      ensures p.valLen == valLen && p.slotCount == slotCount && p.arrayStart == arrayStart && p.occupiedCount == 0
      ensures p.prefixLength == CommonPrefix(lower, upper) && p.cells == seq(slotCount, _ => None) && p.View().Entries() == []
    {
      var prefix := MatchingBytes(lower, upper);
      ghost var bytes: seq<Byte> := seq(sizes.leaf, _ => 0);
      FreshDenseOk(FreshImage(bytes, lower, upper, fullKeyLen, arrayStart, valLen, slotCount, prefix), bytes);
      p := new DenseNode(lower, upper, fullKeyLen, arrayStart, valLen, slotCount, prefix);
    }

    // ---- bitmap and values ----

    /** DenseNode::isSlotPresent */
    function IsSlotPresent(i: nat): (r: bool)
      requires Layout() && i < slotCount
      reads this
      ensures r <==> View().Present(i)
    {
      CellReads(Image(), i);
      ShiftBit(mask[i / WORD_BITS], i % WORD_BITS, 0);
      Shr(mask[i / WORD_BITS], i % WORD_BITS) % 2 != 0
    }

    /** DenseNode::getVal of a present slot. */
    function GetVal(i: nat): (v: seq<Byte>)
      requires Layout() && i < slotCount && View().Present(i)
      reads this
      ensures View().Present(i) && v == cells[i].value
    {
      CellReads(Image(), i);
      var at := maskOffset + MaskWords(slotCount) * WORD_BYTES + CellBytes(valLen, i);
      page[at..at + valLen]
    }

    /** setSlotPresent and the memcpy to getVal. */
    method SetCell(i: nat, v: seq<Byte>)
      requires Layout() && i < slotCount == |cells| && |v| == valLen && arrayStart + i < Pow256(NumericPartLen(fullKeyLen))
      modifies this`mask, this`page, this`cells
      ensures Layout() && cells == old(cells)[i := Some(v)]
    {
      ghost var was := Image();
      CellReads(was, i);
      mask := mask[i / WORD_BITS := SetBit(mask[i / WORD_BITS], i % WORD_BITS)];
      page := Write(page, maskOffset + MaskWords(slotCount) * WORD_BYTES + CellBytes(valLen, i), v);
      cells := cells[i := Some(v)];
      SetCellOk(was, Image(), i, v);
    }

    /** DenseNode::unsetSlotPresent */
    method UnsetCell(i: nat)
      requires Layout() && i < slotCount == |cells|
      modifies this`mask, this`cells
      ensures Layout() && cells == old(cells)[i := None]
    {
      ghost var was := Image();
      CellReads(was, i);
      mask := mask[i / WORD_BITS := ClearBit(mask[i / WORD_BITS], i % WORD_BITS)];
      cells := cells[i := None];
      ClearCellOk(was, Image(), i);
    }

    method GetFences() returns (lower: Key, upper: Key)
      requires Layout()
      ensures lower == lowerKey && upper == upperKey
    {
      DenseOkIs(Image());
      var at := FencesStart(lowerFenceLen, upperFenceLen, fullKeyLen);
      HashImages.BytesAtIs(page, sizes.leaf - lowerFenceLen, lowerKey);
      HashImages.BytesAtIs(page, at, upperKey);
      lower := page[sizes.leaf - lowerFenceLen..sizes.leaf];
      upper := page[at..at + upperFenceLen];
    }

    // ---- lookup, insert, remove ----

    /** DenseNode::keyToIndex */
    method IndexOf(key: Key) returns (r: KeyIndex)
      requires Layout() && Within(lowerKey, upperKey, key)
      ensures prefixLength <= |key| && NumericPrefixLength(fullKeyLen) <= |lowerKey|
      ensures r == KeyToIndex(lowerKey, prefixLength, fullKeyLen, arrayStart, slotCount, key)
    {
      IndexIs(Image(), key);
      var lower, _ := GetFences();
      r := KeyToIndex(lower, prefixLength, fullKeyLen, arrayStart, slotCount, key);
    }

    method Lookup(key: Key) returns (payload: Option<seq<Byte>>)
      requires Valid() && Within(lowerKey, upperKey, key)
      ensures payload == View().Answer(key) && Sorted(View().Entries()) && payload == Nodes.Lookup(View().Entries(), key)
    {
      DenseBounds(Image());
      IndexIs(Image(), key);
      DenseAnswers(View(), key);
      var index := IndexOf(key);
      if !index.Index? || !IsSlotPresent(index.i) {
        return None;
      }
      payload := Some(GetVal(index.i));
    }

    /** The value lengths agree and the key has an index: the value goes into its cell. */
    method Store(key: Key, index: nat, payload: seq<Byte>)
      requires Valid() && Within(lowerKey, upperKey, key) && |payload| == valLen && index < slotCount
      requires View().InArray(key) && Numeric(key, fullKeyLen) == arrayStart + index
      modifies this`mask, this`page, this`cells, this`occupiedCount
      ensures Valid() && AnswersSet(old(View()), View(), key, Some(payload))
    {
      DenseBounds(Image());
      ghost var was := View();
      StoresUnder(was, was.(cells := cells[index := Some(payload)]), index, key, payload, occupiedCount);
      occupiedCount := occupiedCount + if IsSlotPresent(index) then 0 else 1;
      SetCell(index, payload);
    }

    method Remove(key: Key) returns (removed: bool)
      requires Valid() && Within(lowerKey, upperKey, key)
      modifies this`mask, this`cells, this`occupiedCount
      ensures Valid() && removed == old(View()).Answer(key).Some?
      ensures AnswersSet(old(View()), View(), key, None)
    {
      DenseBounds(Image());
      IndexIs(Image(), key);
      var index := IndexOf(key);
      if !index.Index? || !IsSlotPresent(index.i) {
        return false;
      }
      ghost var was := View();
      ClearsUnder(was, was.(cells := cells[index.i := None]), index.i, key, occupiedCount);
      UnsetCell(index.i);
      occupiedCount := occupiedCount - 1;
      return true;
    }

    // ---- conversion ----

    /** DenseNode::convertToBasic: a plain page with the same entries in order, when they fit one. */
    method ConvertToBasic() returns (node: BTreeNode)
      requires Valid() && sizes.header + SlotBytes(|View().Entries()|) + SpaceUsed(AsNode()) <= sizes.leaf
      ensures fresh(node) && node.Valid() && node.View() == AsNode()
    {
      ghost var es := View().Entries();
      DenseBounds(Image());
      BasicRoom(Image(), occupiedCount);
      var lower, upper := GetFences();
      node := BTreeNode.PageFor(true, lower, upper, es);
      var n := CopyToBasic(node, lower, es);
      node.Finish(n, 0, es, sizes.leaf);
    }

    /** DenseNode::copyKeyValueRangeToBasic of all slots. */
    method CopyToBasic(dst: BTreeNode, lower: Key, ghost es: seq<Entry>) returns (outSlot: nat)
      requires Layout() && lower == lowerKey && NumericPrefixLength(fullKeyLen) <= |lowerKey| && es == View().Entries()
      requires AllStartWith(es, FencePrefix(lowerKey, upperKey))
      requires dst.Receiving([], es, 0, sizes.leaf) && dst.lowerKey == lowerKey && dst.upperKey == upperKey
      modifies dst`slot, dst`heap, dst`dataOffset, dst`spaceUsed, dst`entries
      ensures outSlot == |es| && dst.Receiving([], es, outSlot, sizes.leaf)
    {
      DenseBounds(Image());
      outSlot := 0;
      for i: nat := 0 to slotCount
        invariant outSlot == |View().EntriesIn(0, i)| <= |es| && dst.Receiving([], es, outSlot, sizes.leaf)
      {
        NextEntry(View(), i);
        if IsSlotPresent(i) {
          CopySlot(dst, lower, i, outSlot, es);
          outSlot := outSlot + 1;
        }
      }
    }

    method CopySlot(dst: BTreeNode, lower: Key, i: nat, outSlot: nat, ghost es: seq<Entry>)
      requires Layout() && lower == lowerKey && NumericPrefixLength(fullKeyLen) <= |lowerKey| && i < slotCount && View().Present(i)
      requires outSlot < |es| && es[outSlot] == Entry(View().KeyAt(i), cells[i].value)
      requires AllStartWith(es, FencePrefix(lowerKey, upperKey))
      requires dst.Receiving([], es, outSlot, sizes.leaf) && dst.lowerKey == lowerKey && dst.upperKey == upperKey
      modifies dst`slot, dst`heap, dst`dataOffset, dst`spaceUsed, dst`entries
      ensures dst.Receiving([], es, outSlot + 1, sizes.leaf)
    {
      DenseBounds(Image());
      assert StartsWith(es[outSlot], FencePrefix(lowerKey, upperKey));
      PrefixIsShared(dst.ImageOf(outSlot));
      StoredBytesAre(View(), prefixLength, i);
      var stored := StoredBytes(lower, fullKeyLen, arrayStart, prefixLength, i);
      assert View().KeyAt(i) == View().KeyAt(i)[..prefixLength] + View().KeyAt(i)[prefixLength..];
      dst.ReceiveNext(stored, GetVal(i), outSlot, outSlot, [], es, sizes.leaf);
    }

    /** DenseNode::insert. An entry of another length is refused if and only if a plain page with the keys of this one,
        each with a payload as long as the new one, has not enough room for them. */
    method Insert(key: Key, payload: seq<Byte>) returns (r: DenseInsert)
      requires Valid() && Within(lowerKey, upperKey, key)
      modifies this`mask, this`page, this`cells, this`occupiedCount
      ensures Valid() && prefixLength <= fullKeyLen
      ensures r.Stored? <==> |payload| == valLen && View().InArray(key) && Numeric(key, fullKeyLen) < arrayStart + slotCount
      ensures r.Stored? ==> AnswersSet(old(View()), View(), key, Some(payload))
      ensures !r.Stored? ==> View() == old(View())
      ensures r.Converted? ==> fresh(r.basic) && r.basic.Valid() && Sorted(View().Entries())
      ensures r.Converted? ==> r.basic.View() == if r.inserted.Stored? then InsertEntry(AsNode(), Entry(key, payload)) else AsNode()
      ensures forall es: seq<Entry>
        | |es| == |old(View()).Entries()| && (forall i | 0 <= i < |es| :: es[i].key == old(View()).Entries()[i].key && |es[i].payload| == |payload|) ::
        (r.Converted? || r.Overflows?) <==>
          (|payload| != valLen || |key| != fullKeyLen) && FreeAfterCompaction(Node(true, lowerKey, upperKey, es, 0)) >= 0
      ensures r.Converted? ==> FreeAfterCompaction(AsNode()) >= 0
      ensures r.Overflows? ==> FreeAfterCompaction(AsNode()) < 0
      ensures |payload| >= valLen ==> !r.Overflows?
    {
      DenseBounds(Image());
      CountedIs(View(), occupiedCount);
      if |payload| != valLen || |key| != fullKeyLen {
        var entrySize := occupiedCount * (fullKeyLen - prefixLength + |payload| + sizes.slot);
        GuardAlways(|payload|);
        if entrySize + lowerFenceLen + upperFenceLen + sizes.header <= sizes.leaf {
          r := ConvertAndInsert(key, payload);
          return;
        }
        return Refused;
      }
      IndexIs(Image(), key);
      var keyIndex := IndexOf(key);
      if !keyIndex.Index? {
        return Refused;
      }
      Store(key, keyIndex.i, payload);
      return DenseInsert.Stored;
    }

    /** Converts the page if the plain one has room, and inserts the entry there. */
    method ConvertAndInsert(key: Key, payload: seq<Byte>) returns (r: DenseInsert)
      requires Valid() && Within(lowerKey, upperKey, key) && prefixLength <= fullKeyLen
      ensures r.Converted? || r.Overflows?
      ensures r.Converted? ==> fresh(r.basic) && r.basic.Valid() && Sorted(View().Entries())
      ensures r.Converted? ==> r.basic.View() == if r.inserted.Stored? then InsertEntry(AsNode(), Entry(key, payload)) else AsNode()
      ensures r.Overflows? <==> FreeAfterCompaction(AsNode()) < 0
    {
      var fits := FitsPlain();
      if !fits {
        return Overflows;
      }
      WithinSharesPrefix(lowerKey, upperKey, key);
      var basic := ConvertToBasic();
      EntriesAscend();
      var inserted := basic.Insert(key, payload);
      return Converted(basic, inserted);
    }

    /** Whether a plain page has room for the entries. */
    method FitsPlain() returns (fits: bool)
      requires Valid() && prefixLength <= fullKeyLen
      ensures fits <==> FreeAfterCompaction(AsNode()) >= 0
    {
      DenseBounds(Image());
      CountedIs(View(), occupiedCount);
      DenseSpace(Image(), occupiedCount);
      fits := sizes.header + SlotBytes(occupiedCount) + lowerFenceLen + upperFenceLen
              + CellBytes(fullKeyLen - prefixLength + valLen, occupiedCount) <= sizes.leaf;
    }

    /** The guard, for all pages it may be said of; it is enough for the values the page holds if they are not longer. */
    lemma GuardAlways(payloadLen: nat)
      requires Valid() && occupiedCount == |View().Entries()| && prefixLength <= fullKeyLen
      ensures forall es: seq<Entry>
        | |es| == |View().Entries()| && (forall i | 0 <= i < |es| :: es[i].key == View().Entries()[i].key && |es[i].payload| == payloadLen) ::
        FreeAfterCompaction(Node(true, lowerKey, upperKey, es, 0)) >= 0 <==>
          occupiedCount * (fullKeyLen - prefixLength + payloadLen + sizes.slot) + lowerFenceLen + upperFenceLen + sizes.header <= sizes.leaf
      ensures payloadLen >= valLen && FreeAfterCompaction(AsNode()) < 0 ==>
        occupiedCount * (fullKeyLen - prefixLength + payloadLen + sizes.slot) + lowerFenceLen + upperFenceLen + sizes.header > sizes.leaf
    {
      DenseBounds(Image());
      forall es: seq<Entry>
        | |es| == |View().Entries()| && (forall i | 0 <= i < |es| :: es[i].key == View().Entries()[i].key && |es[i].payload| == payloadLen)
        ensures FreeAfterCompaction(Node(true, lowerKey, upperKey, es, 0)) >= 0 <==>
          occupiedCount * (fullKeyLen - prefixLength + payloadLen + sizes.slot) + lowerFenceLen + upperFenceLen + sizes.header <= sizes.leaf
      {
        GuardIs(Image(), es, payloadLen);
      }
      DenseSpace(Image(), occupiedCount);
      if payloadLen >= valLen { GuardSuffices(occupiedCount, fullKeyLen - prefixLength, valLen, payloadLen); }
    }

    lemma EntriesAscend()
      requires Valid()
      ensures Sorted(View().Entries())
    {
      DenseBounds(Image());
      EntriesSorted(View(), 0, slotCount);
    }

    // ---- densify ----

    /** DenseNode::densify1: a dense page with exactly the entries of a plain one, when all keys and all payloads
        have one length and the array reaches to the last key. slotCount is stored in 16 bits. When the number above
        the lower fence wraps, which an assertion denies, the page is refused all the same. */
    static method Densify(basic: BTreeNode) returns (ok: bool, out: DenseNode, ghost slots: nat)
      requires basic.Valid() && basic.isLeaf && Ordered(basic.View()) && basic.count > 0
      requires |basic.lowerKey| <= MaxKVSize() && |basic.upperKey| <= MaxKVSize() && |basic.entries| > 0
      requires |basic.entries[0].key| <= MaxKVSize()
      ensures fresh(out) && (ok <==> Densifiable(basic.View(), slots))
      ensures SumWraps(basic.lowerKey, |basic.entries[0].key|) ==> !ok
      ensures |basic.lowerKey| + NUMERIC_BYTES >= |basic.entries[0].key| && Uniform(basic.entries) ==>
        var valLen, end := |basic.entries[0].payload|, FencesStart(|basic.lowerKey|, |basic.upperKey|, |basic.entries[0].key|);
        exists most: nat :: slots == most % 0x1_0000 && IsMost(most, valLen, end)
      ensures ok ==> out.Valid() && out.AsNode() == basic.View().(upperChild := 0) && out.slotCount == slots
    {
      Basics(basic.ImageOf(basic.count));
      basic.SlotIsEntry(0);
      var lower, upper := basic.GetFences();
      var fullKeyLen, valLen := basic.slot[0].keyLen + basic.prefixLength, basic.slot[0].payloadLen;
      slots := 0;
      DensifiableIs(basic.View(), 0);
      if |lower| + NUMERIC_BYTES < fullKeyLen {
        out := Blank();
        return false, out, 0;
      }
      var uniform := SameLengths(basic);
      if !uniform {
        out := Blank();
        return false, out, 0;
      }
      var arrayStart := LeastGreaterKey(lower, fullKeyLen);
      ghost var most;
      var slotCount;
      slotCount, most := SlotsFor(|lower|, |upper|, fullKeyLen, valLen);
      slots := slotCount;
      DensifiableIs(basic.View(), slots);
      ok := ArrayReaches(basic, lower, fullKeyLen, arrayStart, slotCount);
      if !ok {
        out := Blank();
        return;
      }
      WrapIsRefused(basic.View(), slots);
      out := Built(basic, lower, upper, fullKeyLen, arrayStart, valLen, slotCount);
    }

    /** The number of slots for a page with those fences, in 16 bits. */
    static method SlotsFor(lowerLen: nat, upperLen: nat, fullKeyLen: nat, valLen: nat) returns (slotCount: nat, ghost most: nat)
      requires lowerLen <= MaxKVSize() && upperLen <= MaxKVSize() && fullKeyLen <= MaxKVSize()
      ensures FencesStart(lowerLen, upperLen, fullKeyLen) >= 0 && slotCount < 0x1_0000
      ensures SlotsFit(slotCount, valLen, FencesStart(lowerLen, upperLen, fullKeyLen))
      ensures slotCount == most % 0x1_0000 && IsMost(most, valLen, FencesStart(lowerLen, upperLen, fullKeyLen))
    {
      FencesLeaveRoom(lowerLen, upperLen, fullKeyLen);
      var slots := ComputeSlotCount(valLen, FencesStart(lowerLen, upperLen, fullKeyLen));
      slotCount, most := slots % 0x1_0000, slots;
      FewerFit(slotCount, most, valLen, FencesStart(lowerLen, upperLen, fullKeyLen));
    }

    static method Built(basic: BTreeNode, lower: Key, upper: Key, fullKeyLen: nat, arrayStart: nat, valLen: nat, slotCount: nat) returns (out: DenseNode)
      requires basic.LayoutOf(basic.count) && basic.count == |basic.entries| > 0 && Ordered(basic.View()) && basic.isLeaf
      requires lower == basic.lowerKey && upper == basic.upperKey && Densifiable(basic.View(), slotCount)
      requires fullKeyLen == |basic.entries[0].key| && valLen == |basic.entries[0].payload|
      requires FencesStart(|lower|, |upper|, fullKeyLen) >= 0 && SlotsFit(slotCount, valLen, FencesStart(|lower|, |upper|, fullKeyLen))
      requires arrayStart == LeastGreaterKey(lower, fullKeyLen)
      ensures fresh(out) && out.Valid() && out.AsNode() == basic.View().(upperChild := 0) && out.slotCount == slotCount
    {
      CanBuild(basic.View(), slotCount, arrayStart);
      out := NewPage(lower, upper, fullKeyLen, arrayStart, valLen, slotCount);
      FillFrom(basic, out);
    }

    static method Blank() returns (out: DenseNode)
      ensures fresh(out)
    {
      out := new DenseNode([], [], 0, 0, 0, 0, 0);
    }

    /** All keys have the length of the first, and so have all payloads. */
    static method SameLengths(basic: BTreeNode) returns (uniform: bool)
      requires basic.LayoutOf(basic.count) && basic.count > 0
      ensures |basic.entries| == basic.count && (uniform <==> Uniform(basic.entries))
    {
      Basics(basic.ImageOf(basic.count));
      basic.SlotIsEntry(0);
      for i: nat := 1 to basic.count
        invariant forall j | 0 <= j < i :: SameShape(basic.entries, j)
      {
        basic.SlotIsEntry(i);
        if basic.slot[i].keyLen != basic.slot[0].keyLen || basic.slot[i].payloadLen != basic.slot[0].payloadLen {
          assert !SameShape(basic.entries, i);
          return false;
        }
      }
      return true;
    }

    /** Whether the array reaches to the last key: it has the numeric prefix of the lower fence, and its number,
        computed in 32 bits from the numbers of the prefix and of the rest, is below the end of the array. */
    static method ArrayReaches(basic: BTreeNode, lower: Key, fullKeyLen: nat, arrayStart: nat, slotCount: nat) returns (reaches: bool)
      requires basic.LayoutOf(basic.count) && basic.count == |basic.entries| > 0 && Ordered(basic.View()) && Uniform(basic.entries)
      requires lower == basic.lowerKey && fullKeyLen == |basic.entries[0].key| <= |lower| + NUMERIC_BYTES
      requires arrayStart == LeastGreaterKey(lower, fullKeyLen) && slotCount < 0x1_0000
      ensures reaches <==> LastInArray(basic.View(), slotCount)
    {
      var prefix, lastKey := LastParts(basic);
      var lastOutsideRange := OutsideRange(prefix, lastKey, lower);
      var number := NumberOf(prefix, lastKey);
      LastReaches(basic.View(), prefix + lastKey, arrayStart, slotCount, !lastOutsideRange);
      reaches := !lastOutsideRange && Word32(number - arrayStart) < slotCount;
    }

    /** The number of a key from those of the page's prefix and of what is stored. */
    static method NumberOf(prefix: Key, stored: Key) returns (number: nat)
      ensures number == Numeric(prefix + stored, |prefix| + |stored|)
    {
      var prefixNumericPart := GetNumericPart(prefix, |prefix| + |stored|);
      var keyNumericPart := GetNumericPart(stored, |stored|);
      NumericSplits(prefix, stored);
      number := prefixNumericPart + keyNumericPart;
    }

    /** The page's prefix and what is stored of the last key. */
    static method LastParts(basic: BTreeNode) returns (prefix: Key, lastKey: Key)
      requires basic.LayoutOf(basic.count) && basic.count == |basic.entries| > 0 && Ordered(basic.View()) && Uniform(basic.entries)
      ensures prefix + lastKey == basic.entries[|basic.entries| - 1].key && prefix <= basic.lowerKey
      ensures |prefix| + |lastKey| == |basic.entries[0].key|
      ensures Within(basic.lowerKey, basic.upperKey, prefix + lastKey)
    {
      var last := basic.count - 1;
      basic.SlotIsEntry(last);
      PrefixIsShared(basic.ImageOf(basic.count));
      prefix := basic.GetPrefix();
      lastKey := basic.GetKey(last);
      assert SameShape(basic.entries, last);
    }

    /** Whether the last key has another numeric prefix than the lower fence. */
    static method OutsideRange(prefix: Key, lastKey: Key, lower: Key) returns (differs: bool)
      requires prefix <= lower && |prefix| + |lastKey| <= |lower| + NUMERIC_BYTES
      ensures var last := prefix + lastKey; differs <==> last[..NumericPrefixLength(|last|)] != lower[..NumericPrefixLength(|last|)]
    {
      LastAgrees(lower, prefix, lastKey);
      differs := DiffersFrom(lastKey, lower, |prefix|, |prefix| + |lastKey|);
    }

    /** Whether the last key differs from the lower fence between the page's prefix and the number. */
    static method DiffersFrom(lastKey: Key, lower: Key, prefixLength: nat, fullKeyLen: nat) returns (differs: bool)
      requires prefixLength + |lastKey| == fullKeyLen <= |lower| + NUMERIC_BYTES && prefixLength <= |lower|
      ensures differs <==> prefixLength + NUMERIC_BYTES < fullKeyLen
                           && lower[prefixLength..fullKeyLen - NUMERIC_BYTES] != lastKey[..fullKeyLen - NUMERIC_BYTES - prefixLength]
    {
      var i := prefixLength;
      while i + NUMERIC_BYTES < fullKeyLen
        invariant prefixLength <= i && (i + NUMERIC_BYTES <= fullKeyLen || i == prefixLength)
        invariant forall j | prefixLength <= j < i :: lastKey[j - prefixLength] == lower[j]
      {
        if lastKey[i - prefixLength] != lower[i] {
          assert lower[prefixLength..fullKeyLen - NUMERIC_BYTES][i - prefixLength] == lower[i];
          return true;
        }
        i := i + 1;
      }
      return false;
    }

    /** The loop that sets the bit and copies the payload of every entry. */
    static method FillFrom(basic: BTreeNode, out: DenseNode)
      requires basic.LayoutOf(basic.count) && basic.count == |basic.entries| > 0 && Ordered(basic.View())
      requires out.lowerKey == basic.lowerKey && out.upperKey == basic.upperKey && out.fullKeyLen == |basic.entries[0].key|
      requires NumericPrefixLength(out.fullKeyLen) <= |out.lowerKey|
      requires out.Layout() && Densifiable(basic.View(), out.slotCount) && out.View().Entries() == []
      requires out.cells == seq(out.slotCount, _ => None) && out.valLen == |basic.entries[0].payload|
      modifies out`mask, out`page, out`cells, out`occupiedCount
      ensures out.Valid() && out.View().Entries() == basic.entries
    {
      ghost var next := FillAll(basic, out);
      AllFilled(out.View(), basic.entries, next);
      out.occupiedCount := basic.count;
      CountedIs(out.View(), basic.count);
    }

    static method FillAll(basic: BTreeNode, out: DenseNode) returns (ghost next: nat)
      requires basic.LayoutOf(basic.count) && basic.count == |basic.entries| > 0 && Ordered(basic.View())
      requires out.lowerKey == basic.lowerKey && out.upperKey == basic.upperKey && out.fullKeyLen == |basic.entries[0].key|
      requires NumericPrefixLength(out.fullKeyLen) <= |out.lowerKey|
      requires out.Layout() && Densifiable(basic.View(), out.slotCount) && out.View().Entries() == []
      requires out.cells == seq(out.slotCount, _ => None) && out.valLen == |basic.entries[0].payload|
      modifies out`mask, out`page, out`cells, out`occupiedCount
      ensures out.Layout() && Filled(out.View(), basic.entries, basic.count, next)
    {
      DenseBounds(out.Image());
      PrefixIsShared(basic.ImageOf(basic.count));
      ghost var es := basic.entries;
      next := 0;
      var prefix := basic.GetPrefix();
      NothingFilled(out.View(), es);
      for i: nat := 0 to basic.count
        invariant out.Layout() && Filled(out.View(), es, i, next)
        invariant next == NextIndex(out.View(), es, i)
      {
        next := FillNext(basic, out, prefix, i, next);
      }
    }

    static method FillNext(basic: BTreeNode, out: DenseNode, prefix: Key, i: nat, ghost next: nat) returns (ghost next': nat)
      requires basic.LayoutOf(basic.count) && i < basic.count == |basic.entries| && Ordered(basic.View())
      requires prefix == FencePrefix(basic.lowerKey, basic.upperKey)
      requires out.Layout() && Densifiable(basic.View(), out.slotCount) && out.valLen == |basic.entries[0].payload|
      requires out.lowerKey == basic.lowerKey && out.upperKey == basic.upperKey && out.fullKeyLen == |basic.entries[0].key|
      requires Filled(out.View(), basic.entries, i, next) && next == NextIndex(out.View(), basic.entries, i)
      modifies out`mask, out`page, out`cells
      ensures out.Layout() && Filled(out.View(), basic.entries, i + 1, next') && next' == NextIndex(out.View(), basic.entries, i + 1)
    {
      DenseBounds(out.Image());
      var index := IndexFor(basic, prefix, i, out.fullKeyLen, out.arrayStart, out.View());
      basic.SlotIsEntry(i);
      UniformAt(basic.View(), out.slotCount, i);
      out.FillSlot(index, basic.GetPayload(i), basic.entries, i, next);
      next' := index + 1;
    }

    /** Stores the next entry. */
    method FillSlot(index: nat, payload: seq<Byte>, ghost es: seq<Entry>, ghost i: nat, ghost next: nat)
      requires Layout() && index < slotCount == |cells| && i < |es| && es[i].payload == payload && |payload| == valLen
      requires Filled(View(), es, i, next) && next <= index && View().InArray(es[i].key) && Numeric(es[i].key, fullKeyLen) == arrayStart + index
      modifies this`mask, this`page, this`cells
      ensures Layout() && Filled(View(), es, i + 1, index + 1)
    {
      ghost var was := View();
      DenseBounds(Image());
      FillCell(was, was.(cells := was.cells[index := Some(payload)]), es, i, next, index);
      SetCell(index, payload);
    }

    /** The index of an entry, from the numbers of the prefix and of the stored key. */
    static method IndexFor(basic: BTreeNode, prefix: Key, i: nat, fullKeyLen: nat, arrayStart: nat, ghost d: Dense) returns (index: nat)
      requires basic.LayoutOf(basic.count) && i < basic.count == |basic.entries| && Ordered(basic.View())
      requires prefix == FencePrefix(basic.lowerKey, basic.upperKey) && d.Sized() && Densifiable(basic.View(), |d.cells|)
      requires d.lower == basic.lowerKey && d.fullKeyLen == fullKeyLen == |basic.entries[0].key| > 0 && d.start == arrayStart
      ensures NextIndex(d, basic.entries, i) <= index < |d.cells|
      ensures d.InArray(basic.entries[i].key) && Numeric(basic.entries[i].key, d.fullKeyLen) == d.start + index
    {
      PrefixIsShared(basic.ImageOf(basic.count));
      basic.SlotIsEntry(i);
      UniformAt(basic.View(), |d.cells|, i);
      ghost var key := basic.entries[i].key;
      FillIndex(d, basic.View(), i);
      var number := NumberOf(prefix, basic.GetKey(i));
      assert number == Numeric(key, |key|);
      index := number - arrayStart;
    }

    // ---- split ----

    /** DenseNode::changeUpperFence to the key of the last slot. */
    method ChangeUpperFence(fence: Key)
      requires Valid() && 0 < slotCount == |cells| && fence == View().KeyAt(slotCount - 1)
      requires arrayStart + slotCount - 1 < Pow256(NumericPartLen(fullKeyLen))
      modifies this`upperFenceLen, this`prefixLength, this`page, this`upperKey
      ensures Valid() && View() == old(View()).(upper := fence) && occupiedCount == old(occupiedCount)
      ensures View().Entries() == old(View().Entries())
    {
      ghost var was := Image();
      DenseBounds(was);
      LastFence(was, fence);
      NarrowedUpper(was.View(), fence, occupiedCount);
      upperFenceLen := |fence|;
      page := Write(page, FencesStart(lowerFenceLen, upperFenceLen, fullKeyLen), fence);
      upperKey := fence;
      prefixLength := PrefixOf(was, fence);
      NewUpperOk(was, Image(), fence);
    }

    /** updatePrefixLength after the upper fence changed. */
    method PrefixOf(ghost was: DenseImage, fence: Key) returns (prefix: nat)
      requires was.Ok() && was.lower == lowerKey && lowerFenceLen == was.lowerFenceLen && |fence| == fullKeyLen == was.fullKeyLen
      requires FencesStart(lowerFenceLen, |fence|, fullKeyLen) >= 0 && |was.page| == sizes.leaf
      requires page == Write(was.page, FencesStart(lowerFenceLen, |fence|, fullKeyLen), fence)
      ensures prefix == CommonPrefix(lowerKey, fence)
    {
      LowerStays(was, page, fence);
      var lower := page[sizes.leaf - lowerFenceLen..sizes.leaf];
      prefix := MatchingBytes(lower, fence);
    }

    /** memcpy of a whole page. */
    static method CopyOf(other: DenseNode) returns (p: DenseNode)
      requires other.Valid()
      ensures fresh(p) && p.Valid() && p.Image() == other.Image() && p.occupiedCount == other.occupiedCount
    {
      p := Blank();
      p.CopyFrom(other);
    }

    method CopyHeader(other: DenseNode)
      requires other != this
      modifies this`fullKeyLen, this`arrayStart, this`valLen, this`slotCount, this`occupiedCount, this`lowerFenceLen, this`upperFenceLen
      ensures fullKeyLen == other.fullKeyLen && arrayStart == other.arrayStart && valLen == other.valLen && slotCount == other.slotCount
      ensures occupiedCount == other.occupiedCount && lowerFenceLen == other.lowerFenceLen && upperFenceLen == other.upperFenceLen
    {
      fullKeyLen, arrayStart, valLen, slotCount := other.fullKeyLen, other.arrayStart, other.valLen, other.slotCount;
      occupiedCount, lowerFenceLen, upperFenceLen := other.occupiedCount, other.lowerFenceLen, other.upperFenceLen;
    }

    method CopyFrom(other: DenseNode)
      requires other != this
      modifies this
      ensures Image() == other.Image() && occupiedCount == other.occupiedCount
    {
      CopyHeader(other);
      prefixLength, mask, page := other.prefixLength, other.mask, other.page;
      lowerKey, upperKey, cells := other.lowerKey, other.upperKey, other.cells;
    }

    /** DenseNode::restoreKey of the last slot: where splitNode1 divides. */
    method Boundary() returns (boundary: Key)
      requires Layout() && slotCount > 0 && NumericPrefixLength(fullKeyLen) <= |lowerKey|
      ensures boundary == View().KeyAt(slotCount - 1)
    {
      var lower, _ := GetFences();
      KeyAtRestores(View(), slotCount - 1);
      boundary := RestoreKey(arrayStart, fullKeyLen, lower, slotCount - 1);
    }

    /** Where to split, and whether that is a separator for the page. */
    method SplitPoint() returns (boundary: Key, proper: bool)
      requires Valid() && slotCount > 0
      ensures |cells| == slotCount && NumericPrefixLength(fullKeyLen) <= |lowerKey| && boundary == View().KeyAt(slotCount - 1)
      ensures proper <==> ProperBoundary(Image())
    {
      DenseBounds(Image());
      var _, upper := GetFences();
      boundary := Boundary();
      var n := MatchingBytes(boundary, upper);
      var below := upper == [] || n == |boundary| || (n < |upper| && boundary[n] < upper[n]);
      proper := arrayStart + slotCount - 1 < Pow256(NumericPartLen(fullKeyLen)) && below;
    }

    method LeftHalf(boundary: Key) returns (denseLeft: DenseNode)
      requires Valid() && 0 < slotCount == |cells| && boundary == View().KeyAt(slotCount - 1)
      requires arrayStart + slotCount - 1 < Pow256(NumericPartLen(fullKeyLen))
      ensures fresh(denseLeft) && IsLeftHalf(denseLeft, boundary)
    {
      denseLeft := CopyOf(this);
      denseLeft.ChangeUpperFence(boundary);
    }

    /** The same entries below the boundary. */
    ghost predicate IsLeftHalf(left: DenseNode, boundary: Key)
      reads this, left
    {
      && left.Valid() && left.View() == View().(upper := boundary) && NumericPrefixLength(fullKeyLen) <= |lowerKey|
      && left.View().Entries() == View().Entries()
    }

    /** An empty page from the boundary on, dense for keys of the same length or plain. */
    ghost predicate IsRightHalf(right: SplitRightPage, dense: bool, boundary: Key)
      reads this, right.Page()
    {
      && right.DenseRight? == dense
      && match right
         case DenseRight(dense) => IsDenseRight(dense, boundary)
         case BasicRight(basic) => basic.Valid() && basic.View() == Node(true, boundary, upperKey, [], 0)
    }

    ghost predicate IsDenseRight(dense: DenseNode, boundary: Key)
      reads this, dense
    {
      && dense.Valid() && dense.fullKeyLen == fullKeyLen && dense.valLen == valLen
      && dense.AsNode() == Node(true, boundary, upperKey, [], 0) && dense.HasMostSlots()
    }

    /** There are as many slots as fit, in 16 bits. */
    ghost predicate HasMostSlots()
      reads this
    {
      && FencesStart(|lowerKey|, |upperKey|, fullKeyLen) >= 0
      && exists most: nat :: slotCount == most % 0x1_0000 && IsMost(most, valLen, FencesStart(|lowerKey|, |upperKey|, fullKeyLen))
    }

    /** DenseNode::splitNode1: everything stays left of the last slot's key, to its right comes an empty page, dense
        again if the key is slightly too large. That key need not be a separator for the page; and for a key that
        has an index the source leaves open which page comes to the right. */
    method SplitNode1(parent: BTreeNode, key: Key, leftAddress: Address) returns (r: DenseSplit)
      requires Valid() && Within(lowerKey, upperKey, key) && slotCount > 0 && |upperKey| <= MaxKVSize() && fullKeyLen <= MaxKVSize()
      requires |cells| == slotCount && NumericPrefixLength(fullKeyLen) <= |lowerKey|
      requires parent.Valid() && Sorted(parent.entries)
      requires ProperBoundary(Image()) ==> parent.PrefixMatches(View().KeyAt(slotCount - 1))
      requires SpaceNeeded(parent.View(), fullKeyLen, CHILD_BYTES) <= FreeAfterCompaction(parent.View())
      modifies parent
      ensures parent.Valid()
      ensures r.Undefined? <==> HasIndex(Image(), key)
      ensures r.Misplaced? <==> !HasIndex(Image(), key) && !ProperBoundary(Image())
      ensures r.Halves? ==> fresh(r.left) && fresh(r.right.Page()) && Splits(Image(), r.boundary)
      ensures r.Halves? && |key| == fullKeyLen ==> Less(r.boundary, key)
      ensures r.Halves? ==> (r.inserted <==> forall i | 0 <= i < |old(parent.entries)| :: old(parent.entries)[i].key != r.boundary)
      ensures r.Halves? ==> IsLeftHalf(r.left, r.boundary) && IsRightHalf(r.right, JustBehind(Image(), key), r.boundary)
      ensures parent.View() == if r.Halves? && r.inserted then InsertEntry(old(parent.View()), Entry(r.boundary, EncodePtr(leftAddress)))
                               else old(parent.View())
    {
      IndexIs(Image(), key);
      var keyIndex := IndexOf(key);
      if keyIndex.Index? {
        return Undefined;
      }
      var boundary, proper := SplitPoint();
      if !proper {
        return Misplaced;
      }
      SplitFences(Image(), key);
      r := SplitAt(parent, boundary, keyIndex.SlightlyTooLarge?, leftAddress);
    }

    method SplitAt(parent: BTreeNode, boundary: Key, dense: bool, leftAddress: Address) returns (r: DenseSplit)
      requires Valid() && 0 < slotCount == |cells| && ProperBoundary(Image()) && Splits(Image(), boundary)
      requires |upperKey| <= MaxKVSize() && |boundary| == fullKeyLen <= MaxKVSize() && boundary != []
      requires dense ==> LeastNumber(boundary, fullKeyLen) < TWO_TO_THE_32
      requires parent.Valid() && Sorted(parent.entries) && parent.PrefixMatches(boundary)
      requires SpaceNeeded(parent.View(), fullKeyLen, CHILD_BYTES) <= FreeAfterCompaction(parent.View())
      modifies parent
      ensures parent.Valid() && r.Halves? && r.boundary == boundary && fresh(r.left) && fresh(r.right.Page())
      ensures r.inserted <==> forall i | 0 <= i < |old(parent.entries)| :: old(parent.entries)[i].key != boundary
      ensures IsLeftHalf(r.left, boundary) && IsRightHalf(r.right, dense, boundary)
      ensures parent.View() == if r.inserted then InsertEntry(old(parent.View()), Entry(boundary, EncodePtr(leftAddress)))
                               else old(parent.View())
    {
      var inserted := parent.InsertChild(boundary, leftAddress);
      var left := LeftHalf(boundary);
      var right := RightPage(dense, boundary);
      r := Halves(inserted, boundary, left, right);
    }

    /** The empty page right of the boundary: changeLowerFence, or init and setFences of a plain page. */
    method RightPage(splitToSelf: bool, boundary: Key) returns (right: SplitRightPage)
      requires Layout() && |boundary| == fullKeyLen && boundary != [] && (upperKey == [] || LessEq(boundary, upperKey))
      requires |upperKey| <= MaxKVSize() && fullKeyLen <= MaxKVSize()
      requires splitToSelf ==> LeastNumber(boundary, fullKeyLen) < TWO_TO_THE_32
      ensures fresh(right.Page()) && IsRightHalf(right, splitToSelf, boundary)
    {
      var _, upper := GetFences();
      if splitToSelf {
        var dense := DenseFrom(boundary, upper, fullKeyLen, valLen);
        right := DenseRight(dense);
      } else {
        var basic := new BTreeNode(true);
        basic.SetFences(boundary, upper);
        SlotCapacityPositive(true);
        basic.MakeHint();
        right := BasicRight(basic);
      }
    }

    /** DenseNode::changeLowerFence: an empty dense page. */
    static method DenseFrom(lower: Key, upper: Key, fullKeyLen: nat, valLen: nat) returns (dense: DenseNode)
      requires |lower| == fullKeyLen && lower != [] && (upper == [] || LessEq(lower, upper))
      requires |upper| <= MaxKVSize() && fullKeyLen <= MaxKVSize() && LeastNumber(lower, fullKeyLen) < TWO_TO_THE_32
      ensures fresh(dense) && dense.Valid() && dense.fullKeyLen == fullKeyLen && dense.valLen == valLen
      ensures dense.AsNode() == Node(true, lower, upper, [], 0) && dense.HasMostSlots()
    {
      var slots, _ := SlotsFor(|lower|, |upper|, fullKeyLen, valLen);
      var start := LeastGreaterKey(lower, fullKeyLen);
      OverflowIs(lower, fullKeyLen);
      StartIs(start, lower, fullKeyLen);
      dense := NewPage(lower, upper, fullKeyLen, start, valLen, slots);
      CountedIs(dense.View(), 0);
    }

    // ---- scan ----

    /** DenseNode::isNumericRangeAnyLen: a missing key has length zero; it is only asked about when nothing is left
        to compare, because the source would read it. */
    method IsNumericRangeAnyLen(key: Option<Key>) returns (inRange: bool)
      requires Layout() && (key.None? ==> NumericPrefixLength(fullKeyLen) <= prefixLength)
      requires key.Some? ==> Within(lowerKey, upperKey, key.value)
      ensures inRange <==> InRange(Image(), key)
    {
      RangeBytes(Image(), key);
      var lower, _ := GetFences();
      inRange := AgreesFrom(lower, key, prefixLength, NumericPrefixLength(fullKeyLen));
    }

    /** Its loop. */
    static method AgreesFrom(lower: Key, key: Option<Key>, from: nat, to: nat) returns (agrees: bool)
      requires to <= |lower|
      ensures agrees <==> SameFrom(lower, key, from, to)
    {
      var i := from;
      while i < to
        invariant from <= i && (i <= to || i == from)
        invariant SameFrom(lower, key, from, i)
      {
        if lower[i] != (if key.Some? && i < |key.value| then key.value[i] else 0) {
          assert !SameByteAt(lower, key, i);
          return false;
        }
        i := i + 1;
      }
      return true;
    }

    /** The buffer holds the numeric prefix. Unfolded only where BufferStarts is mentioned. */
    ghost predicate BufferReady(keyOut: array<Byte>)
      reads this, keyOut
    {
      forall u: Unfold :: BufferStarts(u, keyOut)
    }

    ghost predicate BufferStarts(u: Unfold, keyOut: array<Byte>)
      reads this, keyOut
    {
      var n := NumericPrefixLength(fullKeyLen);
      n <= |lowerKey| && n <= keyOut.Length && keyOut[..n] == lowerKey[..n]
    }

    /** Copies the number of an index behind the numeric prefix. */
    method WriteNumber(i: nat, keyOut: array<Byte>)
      requires BufferReady(keyOut) && fullKeyLen <= keyOut.Length && NumericPrefixLength(fullKeyLen) <= |lowerKey|
      modifies keyOut
      ensures BufferReady(keyOut) && keyOut[..fullKeyLen] == View().KeyAt(i)
    {
      assert BufferStarts(Unfold, keyOut);
      var nprefLen := NumericPrefixLength(fullKeyLen);
      var number := NumberBytes(fullKeyLen, arrayStart, i);
      KeyAtParts(View(), i);
      CopyTo(keyOut, nprefLen, number);
      assert keyOut[..nprefLen + |number|] == keyOut[..nprefLen] + keyOut[nprefLen..nprefLen + |number|];
    }

    /** Shows one entry to the callback: the buffer holds the numeric prefix already, the number is copied behind it. */
    method VisitCell(i: nat, keyOut: array<Byte>, v: Visitor) returns (go: bool)
      requires Layout() && i < slotCount && View().Present(i) && NumericPrefixLength(fullKeyLen) <= |lowerKey|
      requires fullKeyLen <= keyOut.Length
      requires BufferReady(keyOut)
      modifies keyOut, v`seen
      ensures BufferReady(keyOut)
      ensures View().Present(i) && v.seen == old(v.seen) + [Entry(View().KeyAt(i), cells[i].value)] && go == v.more(v.seen)
    {
      WriteNumber(i, keyOut);
      go := v.Visit(keyOut, fullKeyLen, GetVal(i));
    }

    /** Shows the next entry of a scan. */
    method ShowCell(i: nat, keyOut: array<Byte>, v: Visitor, ghost im: DenseImage, ghost seen: seq<Entry>, ghost out: seq<Entry>) returns (go: bool)
      requires Layout() && im == Image() && i < slotCount && View().Present(i) && NumericPrefixLength(fullKeyLen) <= |lowerKey|
      requires fullKeyLen <= keyOut.Length && Shown(v.more, seen, v.seen, out, false)
      requires BufferReady(keyOut)
      modifies keyOut, v`seen
      ensures BufferReady(keyOut)
      ensures Shown(v.more, seen, v.seen, out + [EntryAt(im, i)], !go)
    {
      ghost var now := v.seen;
      go := VisitCell(i, keyOut, v);
      ShownNext(v.more, seen, now, out, EntryAt(im, i), !go);
    }

    /** The word of the bitmap with that index, or what the page holds where it would be. */
    function LoadWord(w: nat): nat
      requires Layout() && WordEnd(w) <= sizes.leaf
      reads this
    {
      DenseBounds(Image());
      if w < |mask| then mask[w] else LittleEndian(page[WordEnd(w) - WORD_BYTES..WordEnd(w)])
    }

    /** The walk over the set bits from firstIndex on, a word at a time. The source loads the first word unchecked. */
    method Walk(firstIndex: nat, keyOut: array<Byte>, v: Visitor) returns (end: ScanEnd, ghost out: seq<Entry>, ghost to: nat)
      requires Layout() && NumericPrefixLength(fullKeyLen) <= |lowerKey| && fullKeyLen <= keyOut.Length
      requires BufferReady(keyOut)
      modifies keyOut, v`seen
      ensures !end.NullKey? && (end.OffPage? <==> LeavesPage(firstIndex)) && (end.BehindCells? <==> ReadsBehind(Image(), firstIndex))
      ensures Shown(v.more, old(v.seen), v.seen, out, end.Stopped?)
      ensures Listed(View(), out, firstIndex, to) && (if end.Stopped? then firstIndex < to <= slotCount else to >= slotCount)
    {
      ghost var im := Image();
      DenseBounds(im);
      if WordEnd(firstIndex / WORD_BITS) > sizes.leaf {
        ShownNothing(v.more, v.seen);
        BehindPage(im, firstIndex);
        return OffPage, [], firstIndex;
      }
      var word := LoadWord(firstIndex / WORD_BITS);
      FirstLoad(im, firstIndex, word);
      end, out, to := WalkFrom(firstIndex, word, keyOut, v);
    }

    /** The walk from a first word on. */
    method WalkFrom(firstIndex: nat, first: nat, keyOut: array<Byte>, v: Visitor) returns (end: ScanEnd, ghost out: seq<Entry>, ghost to: nat)
      requires Layout() && IsWord(first) && NumericPrefixLength(fullKeyLen) <= |lowerKey| && fullKeyLen <= keyOut.Length
      requires first == WordAt(mask, first, firstIndex / WORD_BITS)
      requires BufferReady(keyOut)
      modifies keyOut, v`seen
      ensures !end.NullKey? && !end.OffPage? && (end.BehindCells? <==> BitBehind(firstIndex, slotCount, first))
      ensures Shown(v.more, old(v.seen), v.seen, out, end.Stopped?)
      ensures Listed(View(), out, firstIndex, to) && (if end.Stopped? then firstIndex < to <= slotCount else to >= slotCount)
    {
      ghost var im := Image();
      var wordIndex := firstIndex / WORD_BITS;
      var shift: nat := firstIndex % WORD_BITS;
      WalkStarts(im, first, firstIndex);
      var word: nat := Shr(first, shift);
      out := [];
      ShownNothing(v.more, v.seen);
      while true
        invariant Walking(im, first, firstIndex, wordIndex, shift, word, out) && shift <= WORD_BITS
        invariant firstIndex / WORD_BITS <= wordIndex <= |mask| + firstIndex / WORD_BITS
        invariant Shown(v.more, old(v.seen), v.seen, out, false)
        invariant BufferReady(keyOut)
        decreases |mask| + firstIndex / WORD_BITS - wordIndex, WORD_BITS - shift
      {
        var trailingZeros := CountTrailingZeros(word, WORD_BITS);
        if trailingZeros == WORD_BITS {
          WalkZeros(im, first, firstIndex, wordIndex, shift, word, out);
          wordIndex := wordIndex + 1;
          if wordIndex >= |mask| {
            return Finished, out, wordIndex * WORD_BITS;
          }
          shift := 0;
          word := mask[wordIndex];
        } else {
          WalkBit(im, first, firstIndex, wordIndex, shift, word, trailingZeros, out);
          shift := shift + trailingZeros;
          word := Shr(word, trailingZeros);
          var entryIndex := wordIndex * WORD_BITS + shift;
          if entryIndex > slotCount {
            return Finished, out, entryIndex;
          }
          if entryIndex == slotCount {
            // the assertion of getVal; without it the callback would see the bytes behind the last cell
            return BehindCells, out, entryIndex;
          }
          WalkOn(im, first, firstIndex, wordIndex, shift, word, out);
          var go := ShowCell(entryIndex, keyOut, v, im, old(v.seen), out);
          out := out + [EntryAt(im, entryIndex)];
          if !go {
            return Stopped, out, entryIndex + 1;
          }
          shift := shift + 1;
          word := Shr(word, 1);
        }
      }
    }

    /** DenseNode::range_lookup1. The keys of a page follow its lower fence. overflows says that the assertion of
        leastGreaterKey fails; the rest is what happens without that assertion. */
    method RangeLookup1(key: Option<Key>, keyOut: array<Byte>, v: Visitor)
      returns (end: ScanEnd, overflows: bool, ghost out: seq<Entry>, ghost to: nat)
      requires Valid() && fullKeyLen <= keyOut.Length && prefixLength <= keyOut.Length
      requires keyOut[..prefixLength] == FencePrefix(lowerKey, upperKey)
      requires key.Some? ==> Within(lowerKey, upperKey, key.value)
      modifies keyOut, v`seen
      ensures end.NullKey? <==> key.None? && NumericPrefixLength(fullKeyLen) > prefixLength
      ensures overflows <==> key.Some? && Walks(Image(), key) && SumWraps(key.value, fullKeyLen)
      ensures end.OffPage? <==> Walks(Image(), key) && maskOffset + (FirstSlot(Image(), key) / 64 + 1) * 8 > sizes.leaf
      ensures end.BehindCells? <==>
        && Walks(Image(), key) && FirstSlot(Image(), key) == slotCount && slotCount % 64 == 0
        && maskOffset + slotCount / 8 + 8 <= sizes.leaf == |page| && page[maskOffset + slotCount / 8] % 2 == 1
      ensures Shown(v.more, old(v.seen), v.seen, out, end.Stopped?)
      ensures end.Finished? && key.None? ==> out == View().Entries()
      ensures end.Finished? && key.Some? ==>
        (ListsFrom(View(), key.value, out) <==> !ScansAll(Image(), key) || View().Entries() == [])
      ensures end.Finished? && ScansAll(Image(), key) ==> out == View().Entries() && ListsFrom(View(), key.value, [])
      ensures Walks(Image(), key) ==> View().EntriesIn(FirstSlot(Image(), key), slotCount) == out + View().EntriesIn(to, slotCount)
      ensures !end.Stopped? ==> to >= slotCount
    {
      ghost var im := Image();
      DenseBounds(im);
      overflows, out, to := false, [], slotCount;
      ShownNothing(v.more, v.seen);
      if key.None? && NumericPrefixLength(fullKeyLen) > prefixLength {
        return NullKey, overflows, out, to;
      }
      var inRange := IsNumericRangeAnyLen(key);
      if !inRange {
        OutOfRangeOwesNothing(View(), key.value);
        return Finished, overflows, out, to;
      }
      overflows := key.Some? && SumWraps(key.value, fullKeyLen);
      OutsideReads(FirstSlot(im, key));
      var firstIndex := if key.None? then 0 else FirstIndex(key.value, fullKeyLen, arrayStart);
      CopyNumericPrefix(keyOut);
      end, out, to := Walk(firstIndex, keyOut, v);
      WalkOwes(im, key, to, out);
    }

    /** What the two readings outside the cells come to. */
    lemma OutsideReads(first: nat)
      requires |page| == sizes.leaf
      ensures LeavesPage(first) <==> maskOffset + (first / 64 + 1) * 8 > sizes.leaf
      ensures ReadsBehind(Image(), first) <==>
        && first == slotCount && slotCount % 64 == 0
        && maskOffset + slotCount / 8 + 8 <= sizes.leaf && page[maskOffset + slotCount / 8] % 2 == 1
    {
    }

    /** The bytes between the page's prefix and the number are those of the lower fence. */
    method CopyNumericPrefix(keyOut: array<Byte>)
      requires Layout() && fullKeyLen <= keyOut.Length && prefixLength <= keyOut.Length
      requires keyOut[..prefixLength] == FencePrefix(lowerKey, upperKey)
      modifies keyOut
      ensures NumericPrefixLength(fullKeyLen) <= |lowerKey|
      ensures BufferReady(keyOut)
    {
      DenseBounds(Image());
      var lower, _ := GetFences();
      var nprefLen := NumericPrefixLength(fullKeyLen);
      if nprefLen > prefixLength {
        CopyTo(keyOut, prefixLength, lower[prefixLength..nprefLen]);
        assert keyOut[..nprefLen] == keyOut[..prefixLength] + keyOut[prefixLength..prefixLength + (nprefLen - prefixLength)];
        assert lower[..nprefLen] == lower[..prefixLength] + lower[prefixLength..nprefLen];
      } else {
        assert keyOut[..nprefLen] == keyOut[..prefixLength][..nprefLen];
      }
      assert BufferStarts(Unfold, keyOut);
    }
  }

  // ---- walking the bitmap ----

  function ByteOrZero(key: Option<Key>, i: nat): Byte {
    if key.Some? && i < |key.value| then key.value[i] else 0
  }

  /** The start key, or its missing, has the numeric prefix of the array. */
  ghost predicate InRange(im: DenseImage, key: Option<Key>) {
    var n := NumericPrefixLength(im.fullKeyLen);
    key.Some? ==> n <= |im.lower| && NumericPrefix(key.value, im.fullKeyLen) == im.lower[..n]
  }

  lemma RangeBytes(im: DenseImage, key: Option<Key>)
    requires im.Ok() && (key.None? ==> NumericPrefixLength(im.fullKeyLen) <= im.prefixLength)
    requires key.Some? ==> Within(im.lower, im.upper, key.value)
    ensures NumericPrefixLength(im.fullKeyLen) <= |im.lower|
    ensures InRange(im, key) <==> SameFrom(im.lower, key, im.prefixLength, NumericPrefixLength(im.fullKeyLen))
  {
    DenseBounds(im);
    if key.Some? {
      WithinSharesPrefix(im.lower, im.upper, key.value);
      SharedStart(im.lower, key.value, im.prefixLength);
      PrefixBytes(im.lower, key.value, im.prefixLength, im.fullKeyLen);
    }
  }

  /** The scan computes a first index. */
  ghost predicate Walks(im: DenseImage, key: Option<Key>) {
    && InRange(im, key) && NumericPrefixLength(im.fullKeyLen) <= |im.lower|
    && (key.None? ==> NumericPrefixLength(im.fullKeyLen) <= im.prefixLength)
  }

  /** The first slot a scan visits. */
  function FirstSlot(im: DenseImage, key: Option<Key>): nat {
    if key.None? then 0 else FirstIndex(key.value, im.fullKeyLen, im.arrayStart)
  }

  /** The scan visits all slots although its start key is above all keys. */
  ghost predicate ScansAll(im: DenseImage, key: Option<Key>) {
    key.Some? && Walks(im, key) && WrapsToStart(key.value, im.fullKeyLen, im.arrayStart)
  }

  /** The start key, filled up with zeros, agrees with the lower fence from byte lo to byte hi. */
  ghost predicate SameFrom(lower: Key, key: Option<Key>, lo: nat, hi: nat) {
    forall j | lo <= j < hi :: SameByteAt(lower, key, j)
  }

  ghost predicate SameByteAt(lower: Key, key: Option<Key>, j: nat) {
    j < |lower| && lower[j] == ByteOrZero(key, j)
  }

  lemma SharedStart(lower: Key, key: Key, p: nat)
    requires p <= |lower| && lower[..p] <= key
    ensures SameFrom(lower, Some(key), 0, p)
  {
    forall j | 0 <= j < p ensures SameByteAt(lower, Some(key), j) {
      assert lower[..p][j] == key[j];
    }
  }

  lemma PrefixBytes(lower: Key, key: Key, p: nat, fullKeyLen: nat)
    requires NumericPrefixLength(fullKeyLen) <= |lower| && SameFrom(lower, Some(key), 0, p)
    ensures var n := NumericPrefixLength(fullKeyLen);
      NumericPrefix(key, fullKeyLen) == lower[..n] <==> SameFrom(lower, Some(key), p, n)
  {
    var n, padded := NumericPrefixLength(fullKeyLen), Pad(key, fullKeyLen);
    PadBytes(key, fullKeyLen);
    if SameFrom(lower, Some(key), p, n) {
      forall j | 0 <= j < n ensures padded[j] == lower[j] { assert SameByteAt(lower, Some(key), j); }
    }
    if padded[..n] == lower[..n] {
      forall j | p <= j < n ensures SameByteAt(lower, Some(key), j) { assert padded[..n][j] == lower[..n][j]; }
    }
  }

  /** A word of the bitmap, or what is read instead behind it. */
  function WordAt(mask: seq<nat>, beyond: nat, w: nat): nat {
    if w < |mask| then mask[w] else beyond
  }

  /** word has the bits of word w that are left from shift on. */
  ghost predicate LeftInWord(mask: seq<nat>, beyond: nat, w: nat, shift: nat, word: nat) {
    shift <= WORD_BITS && forall i: nat :: LeftBit(mask, beyond, w, shift, word, i)
  }

  ghost predicate LeftBit(mask: seq<nat>, beyond: nat, w: nat, shift: nat, word: nat, i: nat) {
    Bit(word, i) <==> shift + i < WORD_BITS && Bit(WordAt(mask, beyond, w), shift + i)
  }

  /** How a scan of a page ends. */
  datatype ScanEnd =
    | Finished    // range_lookup1 returned true
    | Stopped     // the callback returned false
    | NullKey     // the missing start key is read
    | OffPage     // the first word of the bitmap is read behind the end of the page
    | BehindCells // the callback gets the bytes behind the last cell; the assertion of getVal fails

  /** Where a word of the bitmap ends in the page. */
  function WordEnd(w: nat): nat {
    maskOffset + (w + 1) * WORD_BYTES
  }

  /** The word of the first slot is not in the page. */
  predicate LeavesPage(first: nat) {
    WordEnd(first / WORD_BITS) > sizes.leaf
  }

  /** The walk starts right behind a bitmap without spare bits, and the byte there, the first of the cells, is odd. */
  predicate ReadsBehind(im: DenseImage, first: nat) {
    first == im.slotCount && first % WORD_BITS == 0 && !LeavesPage(first) && im.Values() < |im.page| && im.page[im.Values()] % 2 == 1
  }

  /** The same, by the bit that is loaded. */
  ghost predicate BitBehind(first: int, slotCount: nat, beyond: nat) {
    first == slotCount && slotCount % WORD_BITS == 0 && Bit(beyond, 0)
  }

  /** The first word that is loaded. */
  lemma FirstLoad(im: DenseImage, first: nat, word: nat)
    requires im.Ok() && !LeavesPage(first) && |im.page| == sizes.leaf
    requires var w := first / WORD_BITS;
      word == if w < |im.mask| then im.mask[w] else LittleEndian(im.page[WordEnd(w) - WORD_BYTES..WordEnd(w)])
    ensures IsWord(word) && word == WordAt(im.mask, word, first / WORD_BITS)
    ensures BitBehind(first, im.slotCount, word) <==> ReadsBehind(im, first)
  {
    DenseOkIs(im);
    var w := first / WORD_BITS;
    MaskWordsBound(im.slotCount);
    if w >= |im.mask| {
      LoadedIsWord(im.page[WordEnd(w) - WORD_BYTES..WordEnd(w)]);
    }
  }

  /** A word behind the page is behind the bitmap. */
  lemma BehindPage(im: DenseImage, first: nat)
    requires im.Ok() && LeavesPage(first)
    ensures first >= im.slotCount && Listed(im.View(), [], first, first) && !ReadsBehind(im, first)
  {
    DenseBounds(im);
    MaskWordsBound(im.slotCount);
    ListedIs(im.View(), [], first, first);
    assert im.View().EntriesIn(first, first) == [];
  }

  ghost function EntryAt(im: DenseImage, i: nat): Entry
    requires NumericPrefixLength(im.fullKeyLen) <= |im.lower| && im.View().Present(i)
  {
    Entry(im.View().KeyAt(i), im.cells[i].value)
  }

  /** out is what the cells from lo to hi hold. Unfolded only where ListedNow is mentioned. */
  ghost predicate Listed(d: Dense, out: seq<Entry>, lo: nat, hi: nat) {
    forall u: Unfold :: ListedNow(u, d, out, lo, hi)
  }

  ghost predicate ListedNow(u: Unfold, d: Dense, out: seq<Entry>, lo: nat, hi: nat) {
    NumericPrefixLength(d.fullKeyLen) <= |d.lower| && out == d.EntriesIn(lo, hi)
  }

  lemma ListedIs(d: Dense, out: seq<Entry>, lo: nat, hi: nat)
    ensures Listed(d, out, lo, hi) <==> NumericPrefixLength(d.fullKeyLen) <= |d.lower| && out == d.EntriesIn(lo, hi)
  {
    assert Listed(d, out, lo, hi) ==> ListedNow(Unfold, d, out, lo, hi);
  }

  /** A walk from first that is at shift in word w, has word left of it and has shown out. */
  ghost predicate Walking(im: DenseImage, beyond: nat, first: nat, w: nat, shift: nat, word: nat, out: seq<Entry>) {
    forall u: Unfold :: WalkingNow(u, im, beyond, first, w, shift, word, out)
  }

  ghost predicate WalkingNow(u: Unfold, im: DenseImage, beyond: nat, first: nat, w: nat, shift: nat, word: nat, out: seq<Entry>) {
    && im.Ok() && NumericPrefixLength(im.fullKeyLen) <= |im.lower| && LeftInWord(im.mask, beyond, w, shift, word)
    && first <= w * WORD_BITS + shift && first / WORD_BITS <= w && out == im.View().EntriesIn(first, w * WORD_BITS + shift)
    && (w < |im.mask| || (w == first / WORD_BITS && shift == first % WORD_BITS))
  }

  lemma WalkStarts(im: DenseImage, beyond: nat, first: nat)
    requires im.Ok() && IsWord(beyond)
    ensures Walking(im, beyond, first, first / WORD_BITS, first % WORD_BITS, Shr(WordAt(im.mask, beyond, first / WORD_BITS), first % WORD_BITS), [])
  {
    var w, shift := first / WORD_BITS, first % WORD_BITS;
    DenseBounds(im);
    FirstWord(im, beyond, w, shift);
    var word := Shr(WordAt(im.mask, beyond, w), shift);
    assert w * WORD_BITS + shift == first && im.View().EntriesIn(first, first) == [];
    forall u: Unfold ensures WalkingNow(u, im, beyond, first, w, shift, word, []) {}
  }

  /** No bit is left in the word. */
  lemma WalkZeros(im: DenseImage, beyond: nat, first: nat, w: nat, shift: nat, word: nat, out: seq<Entry>)
    requires Walking(im, beyond, first, w, shift, word, out) && CountTrailingZeros(word, WORD_BITS) == WORD_BITS
    ensures NumericPrefixLength(im.fullKeyLen) <= |im.lower|
    ensures w + 1 >= |im.mask| ==> Listed(im.View(), out, first, (w + 1) * WORD_BITS) && (w + 1) * WORD_BITS >= im.slotCount
    ensures w + 1 >= |im.mask| ==> !BitBehind(first, im.slotCount, beyond)
    ensures w + 1 < |im.mask| ==> Walking(im, beyond, first, w + 1, 0, im.mask[w + 1], out)
  {
    assert WalkingNow(Unfold, im, beyond, first, w, shift, word, out);
    SkipZeros(im, beyond, w, shift, word, WORD_BITS, first);
    DenseBounds(im);
    MaskWordsBound(im.slotCount);
    ListedIs(im.View(), out, first, (w + 1) * WORD_BITS);
    if w + 1 < |im.mask| {
      WholeWord(im, beyond, w + 1);
      var w', word' := w + 1, im.mask[w + 1];
      forall u: Unfold ensures WalkingNow(u, im, beyond, first, w', 0, word', out) {}
    }
  }

  /** The next bit of the word: an entry's, unless the word is not of the bitmap. */
  lemma WalkBit(im: DenseImage, beyond: nat, first: nat, w: nat, shift: nat, word: nat, zeros: nat, out: seq<Entry>)
    requires Walking(im, beyond, first, w, shift, word, out) && CountTrailingZeros(word, WORD_BITS) == zeros < WORD_BITS
    ensures NumericPrefixLength(im.fullKeyLen) <= |im.lower| && shift + zeros < WORD_BITS
    ensures Listed(im.View(), out, first, w * WORD_BITS + shift + zeros)
    ensures w * WORD_BITS + shift + zeros < im.slotCount ==>
      Walking(im, beyond, first, w, shift + zeros, Shr(word, zeros), out) && im.View().Present(w * WORD_BITS + shift + zeros)
    ensures w * WORD_BITS + shift + zeros == im.slotCount <==> BitBehind(first, im.slotCount, beyond)
    ensures first <= w * WORD_BITS + shift + zeros
  {
    assert WalkingNow(Unfold, im, beyond, first, w, shift, word, out);
    SkipZeros(im, beyond, w, shift, word, zeros, first);
    DenseBounds(im);
    MaskWordsBound(im.slotCount);
    ShiftWord(im.mask, beyond, w, shift, word, zeros);
    if w * WORD_BITS + shift + zeros < im.slotCount {
      WalkMoves(im, beyond, first, w, shift, word, shift + zeros, Shr(word, zeros), out, out);
    }
    ListedIs(im.View(), out, first, w * WORD_BITS + shift + zeros);
    BehindIs(im, first, w, shift, zeros, beyond);
  }

  /** Where the walk is when it reads behind the bitmap. */
  lemma BehindIs(im: DenseImage, first: nat, w: nat, shift: nat, zeros: nat, beyond: nat)
    requires |im.mask| == MaskWords(im.slotCount) && shift + zeros < WORD_BITS && first <= w * WORD_BITS + shift && first / WORD_BITS <= w
    requires w < |im.mask| ==> w * WORD_BITS + shift + zeros < im.slotCount
    requires w >= |im.mask| ==> w == first / WORD_BITS && shift == first % WORD_BITS && (Bit(beyond, shift) <==> zeros == 0)
    ensures w * WORD_BITS + shift + zeros == im.slotCount <==> BitBehind(first, im.slotCount, beyond)
  {
    MaskWordsBound(im.slotCount);
  }

  lemma WalkMoves(im: DenseImage, beyond: nat, first: nat, w: nat, shift: nat, word: nat, shift': nat, word': nat, out: seq<Entry>, out': seq<Entry>)
    requires Walking(im, beyond, first, w, shift, word, out) && shift <= shift' && LeftInWord(im.mask, beyond, w, shift', word')
    requires NumericPrefixLength(im.fullKeyLen) <= |im.lower| && out' == im.View().EntriesIn(first, w * WORD_BITS + shift')
    requires w < |im.mask| || shift' == shift
    ensures Walking(im, beyond, first, w, shift', word', out')
  {
    assert WalkingNow(Unfold, im, beyond, first, w, shift, word, out);
    forall u: Unfold ensures WalkingNow(u, im, beyond, first, w, shift', word', out') {}
  }

  /** After the entry at the position was shown. */
  lemma WalkOn(im: DenseImage, beyond: nat, first: nat, w: nat, shift: nat, word: nat, out: seq<Entry>)
    requires Walking(im, beyond, first, w, shift, word, out) && shift < WORD_BITS
    requires NumericPrefixLength(im.fullKeyLen) <= |im.lower| && im.View().Present(w * WORD_BITS + shift)
    ensures Walking(im, beyond, first, w, shift + 1, Shr(word, 1), out + [EntryAt(im, w * WORD_BITS + shift)])
    ensures Listed(im.View(), out + [EntryAt(im, w * WORD_BITS + shift)], first, w * WORD_BITS + shift + 1)
  {
    assert WalkingNow(Unfold, im, beyond, first, w, shift, word, out);
    ListedIs(im.View(), out + [EntryAt(im, w * WORD_BITS + shift)], first, w * WORD_BITS + shift + 1);
    DenseBounds(im);
    MaskWordsBound(im.slotCount);
    ShiftWord(im.mask, beyond, w, shift, word, 1);
    WalkMoves(im, beyond, first, w, shift, word, shift + 1, Shr(word, 1), out, out + [EntryAt(im, w * WORD_BITS + shift)]);
  }

  /** What the walk shows is what the scan owes, or everything. */
  lemma WalkOwes(im: DenseImage, key: Option<Key>, to: nat, out: seq<Entry>)
    requires im.Ok() && Walks(im, key) && Listed(im.View(), out, FirstSlot(im, key), to)
    requires key.Some? ==> Within(im.lower, im.upper, key.value)
    requires to >= im.slotCount || FirstSlot(im, key) <= to
    ensures to >= im.slotCount && key.Some? ==>
      (ListsFrom(im.View(), key.value, out) <==> !ScansAll(im, key) || im.View().Entries() == [])
    ensures to >= im.slotCount && ScansAll(im, key) ==> out == im.View().Entries() && ListsFrom(im.View(), key.value, [])
    ensures to >= im.slotCount && key.None? ==> out == im.View().Entries()
    ensures im.View().EntriesIn(FirstSlot(im, key), im.slotCount) == out + im.View().EntriesIn(to, im.slotCount)
  {
    DenseBounds(im);
    var d, n, first := im.View(), im.slotCount, FirstSlot(im, key);
    ListedIs(d, out, first, to);
    if to >= n {
      BehindNothing(d, first, to);
      if key.Some? { ScanOwes(d, key.value); }
      assert d.EntriesIn(to, n) == [];
    } else {
      EntriesConcat(d, first, to, n);
    }
  }

  lemma BehindNothing(d: Dense, first: nat, to: nat)
    requires NumericPrefixLength(d.fullKeyLen) <= |d.lower| && to >= |d.cells|
    ensures d.EntriesIn(first, to) == d.EntriesIn(first, |d.cells|)
  {
    if first < to { NonePresent(d, first, |d.cells|, to); }
  }

  lemma FirstWord(im: DenseImage, beyond: nat, w: nat, shift: nat)
    requires im.Ok() && IsWord(beyond) && shift < WORD_BITS
    ensures LeftInWord(im.mask, beyond, w, shift, Shr(WordAt(im.mask, beyond, w), shift))
  {
    DenseOkIs(im);
    var whole := WordAt(im.mask, beyond, w);
    assert IsWord(whole);
    var word := Shr(whole, shift);
    forall i: nat ensures LeftBit(im.mask, beyond, w, shift, word, i) {
      ShiftBit(whole, shift, i);
    }
  }

  lemma WholeWord(im: DenseImage, beyond: nat, w: nat)
    requires im.Ok() && w < |im.mask|
    ensures LeftInWord(im.mask, beyond, w, 0, im.mask[w])
  {
    DenseOkIs(im);
    var word := im.mask[w];
    assert IsWord(word);
    forall i: nat ensures LeftBit(im.mask, beyond, w, 0, word, i) {}
  }

  lemma ShiftWord(mask: seq<nat>, beyond: nat, w: nat, shift: nat, word: nat, k: nat)
    requires LeftInWord(mask, beyond, w, shift, word) && shift + k <= WORD_BITS
    ensures LeftInWord(mask, beyond, w, shift + k, Shr(word, k))
  {
    var shift', word' := shift + k, Shr(word, k);
    forall i: nat ensures LeftBit(mask, beyond, w, shift', word', i) {
      ShiftBit(word, k, i);
      assert LeftBit(mask, beyond, w, shift, word, i + k);
    }
  }

  /** A bit left in a word of the bitmap is a cell in use; behind the bitmap no cell is. */
  lemma BitIsCell(im: DenseImage, beyond: nat, w: nat, shift: nat, word: nat, i: nat)
    requires im.Ok() && LeftInWord(im.mask, beyond, w, shift, word) && shift + i < WORD_BITS
    ensures w < |im.mask| ==> (Bit(word, i) <==> im.View().Present(w * WORD_BITS + shift + i))
    ensures w >= |im.mask| ==> w * WORD_BITS >= im.slotCount && !im.View().Present(w * WORD_BITS + shift + i)
  {
    DenseOkIs(im);
    MaskWordsBound(im.slotCount);
    assert LeftBit(im.mask, beyond, w, shift, word, i);
    var at := w * WORD_BITS + shift + i;
    assert at / WORD_BITS == w && at % WORD_BITS == shift + i;
    if at < im.slotCount {
      assert CellOk(im.mask, im.page, im.Values(), im.valLen, im.cells, at);
    } else {
      assert !BitAt(im.mask, at);
    }
  }

  /** Skipping the trailing zeros skips no entry; the bit they end at is the next entry's, in the bitmap. */
  lemma SkipZeros(im: DenseImage, beyond: nat, w: nat, shift: nat, word: nat, zeros: nat, first: nat)
    requires im.Ok() && LeftInWord(im.mask, beyond, w, shift, word) && zeros == CountTrailingZeros(word, WORD_BITS)
    requires NumericPrefixLength(im.fullKeyLen) <= |im.lower| && first <= w * WORD_BITS + shift
    ensures var d := im.View(); var at := w * WORD_BITS + shift;
      && (zeros == WORD_BITS ==> d.EntriesIn(first, (w + 1) * WORD_BITS) == d.EntriesIn(first, at))
      && (zeros < WORD_BITS ==> shift + zeros < WORD_BITS && d.EntriesIn(first, at + zeros) == d.EntriesIn(first, at))
      && (zeros < WORD_BITS && w < |im.mask| ==> d.Present(at + zeros) && at + zeros < im.slotCount == |d.cells|)
      && (w >= |im.mask| ==> at >= im.slotCount && (shift < WORD_BITS ==> (Bit(beyond, shift) <==> zeros == 0)))
  {
    var d, at := im.View(), w * WORD_BITS + shift;
    DenseBounds(im);
    TrailingZerosAre(word, WORD_BITS);
    assert LeftBit(im.mask, beyond, w, shift, word, 0);
    if zeros < WORD_BITS {
      assert LeftBit(im.mask, beyond, w, shift, word, zeros);
      BitIsCell(im, beyond, w, shift, word, zeros);
      NoneUpTo(im, beyond, w, shift, word, zeros);
      NonePresent(d, first, at, at + zeros);
    } else {
      NoneUpTo(im, beyond, w, shift, word, WORD_BITS - shift);
      NonePresent(d, first, at, at + (WORD_BITS - shift));
    }
    if w >= |im.mask| { MaskWordsBound(im.slotCount); }
  }

  lemma NoneUpTo(im: DenseImage, beyond: nat, w: nat, shift: nat, word: nat, n: nat)
    requires im.Ok() && LeftInWord(im.mask, beyond, w, shift, word) && shift + n <= WORD_BITS
    requires forall i | 0 <= i < n :: !Bit(word, i)
    ensures forall j: nat | w * WORD_BITS + shift <= j < w * WORD_BITS + shift + n :: !im.View().Present(j)
  {
    forall j: nat | w * WORD_BITS + shift <= j < w * WORD_BITS + shift + n ensures !im.View().Present(j) {
      BitIsCell(im, beyond, w, shift, word, j - (w * WORD_BITS + shift));
    }
  }

  /** The page right of the boundary of a split. */
  datatype SplitRightPage = DenseRight(dense: DenseNode) | BasicRight(basic: BTreeNode)
  {
    function Page(): object {
      match this
      case DenseRight(dense) => dense
      case BasicRight(basic) => basic
    }
  }

  lemma StartIs(start: nat, lower: Key, fullKeyLen: nat)
    requires start == LeastNumber(lower, fullKeyLen)
    ensures IsStart(start, lower, fullKeyLen)
  {
    forall u: Unfold ensures StartNow(u, start, lower, fullKeyLen) {}
  }

  lemma SameEntries(d: Dense, d': Dense)
    requires NumericPrefixLength(d.fullKeyLen) <= |d.lower| && d' == d.(upper := d'.upper)
    ensures d'.Entries() == d.Entries()
  {
    forall i: nat | i < |d.cells| ensures SameCell(d, d', i) {}
    EntriesSame(d, d', 0, |d.cells|);
  }

  /** With the key of the last slot as its upper fence the page has the same entries, all between the fences. */
  lemma NarrowedUpper(d: Dense, fence: Key, occupied: nat)
    requires Counted(d, occupied) && d.Ok() && |d.cells| > 0 && d.start + |d.cells| - 1 < Pow256(NumericPartLen(d.fullKeyLen))
    requires fence == d.KeyAt(|d.cells| - 1)
    ensures d.(upper := fence).Entries() == d.Entries() && Counted(d.(upper := fence), occupied)
  {
    CountedIs(d, occupied);
    CountedIs(d.(upper := fence), occupied);
    BelowLast(d, fence);
    SameEntries(d, d.(upper := fence));
    forall i | 0 <= i < |d.Entries()| ensures Within(d.lower, fence, d.Entries()[i].key) {
      assert d.Entries()[i] in d.Entries();
    }
  }

  /** The fences of a page whose upper fence becomes a key of the full length. */
  lemma LastFence(im: DenseImage, fence: Key)
    requires im.Ok() && |fence| == im.fullKeyLen
    ensures 0 <= im.FenceStart() <= FencesStart(im.lowerFenceLen, |fence|, im.fullKeyLen)
    ensures FencesStart(im.lowerFenceLen, |fence|, im.fullKeyLen) + |fence| + im.lowerFenceLen == sizes.leaf == |im.page|
    ensures im.lowerFenceLen == |im.lower|
  {
    DenseBounds(im);
  }

  lemma FenceChanged(im: DenseImage, fence: Key)
    requires im.Ok() && |fence| == im.fullKeyLen
    ensures var at := FencesStart(im.lowerFenceLen, |fence|, im.fullKeyLen);
      && at >= 0 && at + |fence| <= |im.page| == sizes.leaf && im.lowerFenceLen == |im.lower|
      && HashImages.BytesAt(Write(im.page, at, fence), at, fence)
      && HashImages.BytesAt(Write(im.page, at, fence), sizes.leaf - |im.lower|, im.lower)
      && HashImages.SameBytes(im.page, Write(im.page, at, fence), 0, im.FenceStart())
  {
    LastFence(im, fence);
    DenseOkIs(im);
    var at := FencesStart(im.lowerFenceLen, |fence|, im.fullKeyLen);
    HashImages.WriteIs(im.page, at, fence);
    HashImages.BytesAtKept(im.page, Write(im.page, at, fence), sizes.leaf - |im.lower|, im.lower);
  }

  lemma LowerStays(im: DenseImage, page: seq<Byte>, fence: Key)
    requires im.Ok() && |fence| == im.fullKeyLen
    requires FencesStart(im.lowerFenceLen, |fence|, im.fullKeyLen) >= 0 && |im.page| == sizes.leaf
    requires page == Write(im.page, FencesStart(im.lowerFenceLen, |fence|, im.fullKeyLen), fence)
    ensures im.lowerFenceLen <= sizes.leaf == |page| && page[sizes.leaf - im.lowerFenceLen..sizes.leaf] == im.lower
  {
    FenceChanged(im, fence);
    HashImages.BytesAtIs(page, sizes.leaf - |im.lower|, im.lower);
  }

  /** What changing the upper fence to a key of the full length does. */
  ghost predicate UpperChanged(was: DenseImage, now: DenseImage, fence: Key) {
    var at := FencesStart(was.lowerFenceLen, |fence|, was.fullKeyLen);
    && |fence| == was.fullKeyLen && at >= 0 && at + |fence| <= |was.page| == sizes.leaf
    && now == was.(upperFenceLen := |fence|, upper := fence, prefixLength := CommonPrefix(was.lower, fence), page := now.page)
    && now.page == Write(was.page, at, fence)
  }

  lemma NewUpperFences(was: DenseImage, now: DenseImage, fence: Key)
    requires was.Ok() && UpperChanged(was, now, fence)
    ensures now.FencesOk()
  {
    FenceChanged(was, fence);
    DenseBounds(was);
  }

  lemma NewUpperSlots(was: DenseImage, now: DenseImage, fence: Key)
    requires was.Ok() && UpperChanged(was, now, fence)
    ensures now.SlotsOk()
  {
    FenceChanged(was, fence);
    LastFence(was, fence);
    SlotsAreOk(was);
    PageChanged(was, now.page);
    var mid := was.(page := now.page);
    FewerBytes(mid, now);
  }

  lemma SlotsAreOk(im: DenseImage)
    requires im.Ok()
    ensures im.SlotsOk()
  {
    DenseOkIs(im);
  }

  lemma PageChanged(im: DenseImage, page: seq<Byte>)
    requires im.SlotsOk() && HashImages.SameBytes(im.page, page, 0, im.FenceStart())
    ensures im.(page := page).SlotsOk()
  {
    CellsKept(im.mask, im.page, page, im.Values(), im.valLen, im.cells, im.FenceStart());
  }

  /** The slots do not depend on where the fences start, as long as it is no lower. */
  lemma FewerBytes(im: DenseImage, im': DenseImage)
    requires im.SlotsOk() && im.FenceStart() <= im'.FenceStart() && im'.Values() == im.Values()
    requires im' == im.(upperFenceLen := im'.upperFenceLen, upper := im'.upper, prefixLength := im'.prefixLength)
    ensures im'.SlotsOk()
  {
  }

  lemma NewUpperView(d: Dense, d': Dense)
    requires d.Ok() && d' == d.(upper := d'.upper)
    ensures d'.Ok()
  {
    forall i | 0 <= i < |d'.cells| ensures d'.Fitting(i) { assert d.Fitting(i); }
  }

  /** It disturbs neither the lower fence nor a value. */
  lemma NewUpperOk(was: DenseImage, now: DenseImage, fence: Key)
    requires was.Ok() && UpperChanged(was, now, fence)
    ensures now.Ok()
  {
    NewUpperFences(was, now, fence);
    NewUpperSlots(was, now, fence);
    DenseBounds(was);
    NewUpperView(was.View(), now.View());
    DenseOkIs(now);
  }

  /** What splitting a dense page comes to. */
  datatype DenseSplit =
    | Halves(inserted: bool, boundary: Key, left: DenseNode, right: SplitRightPage)
    | Misplaced // the last slot's key is not a separator between the fences
    | Undefined // the key has an index; the source does not say which page comes to the right

  /** The key's value would have a cell. */
  ghost predicate HasIndex(im: DenseImage, key: Key) {
    im.View().InArray(key) && Numeric(key, im.fullKeyLen) < im.arrayStart + im.slotCount
  }

  /** The last slot's number fits the keys, and its key is not above the upper fence. */
  ghost predicate ProperBoundary(im: DenseImage) {
    && NumericPrefixLength(im.fullKeyLen) <= |im.lower| && im.slotCount > 0
    && im.arrayStart + im.slotCount - 1 < Pow256(NumericPartLen(im.fullKeyLen))
    && (im.upper == [] || LessEq(im.View().KeyAt(im.slotCount - 1), im.upper))
  }

  /** The boundary of a split is the last slot's key, inside the fences. */
  ghost predicate Splits(im: DenseImage, boundary: Key) {
    && NumericPrefixLength(im.fullKeyLen) <= |im.lower| && im.slotCount > 0
    && boundary == im.View().KeyAt(im.slotCount - 1) && Less(im.lower, boundary)
    && (im.upper == [] || LessEq(boundary, im.upper))
  }

  /** A proper boundary is a separator, and below every key of the full length without an index. */
  lemma SplitFences(im: DenseImage, key: Key)
    requires im.Ok() && Within(im.lower, im.upper, key) && ProperBoundary(im) && !HasIndex(im, key)
    ensures var b := im.View().KeyAt(im.slotCount - 1);
      && Splits(im, b) && b != [] && |b| == im.fullKeyLen
      && LeastNumber(b, im.fullKeyLen) == im.arrayStart + im.slotCount
      && (|key| == im.fullKeyLen ==> Less(b, key))
    ensures JustBehind(im, key) ==> im.arrayStart + im.slotCount < TWO_TO_THE_32
  {
    var b := im.View().KeyAt(im.slotCount - 1);
    DenseBounds(im);
    LastBoundary(im.View(), b);
    GetNumericPartIs(key, im.fullKeyLen);
    if |key| == im.fullKeyLen {
      EmptyLeast(key);
      BoundaryBelow(im.View(), key, b);
    }
  }

  /** For a key of the full length without an index the boundary is proper as long as the last slot's number fits,
      which it does for a key of the array's numeric prefix. */
  lemma FullLengthSplits(im: DenseImage, key: Key)
    requires im.Ok() && Within(im.lower, im.upper, key) && |key| == im.fullKeyLen && !HasIndex(im, key) && im.slotCount > 0
    ensures NumericPrefixLength(im.fullKeyLen) <= |im.lower|
    ensures ProperBoundary(im) <==> im.View().InArray(key) || im.arrayStart + im.slotCount <= TWO_TO_THE_32
  {
    DenseBounds(im);
    EmptyLeast(key);
    NumberFits(im.View(), key, im.slotCount);
    if im.arrayStart + im.slotCount - 1 < Pow256(NumericPartLen(im.fullKeyLen)) {
      var b := im.View().KeyAt(im.slotCount - 1);
      LastBoundary(im.View(), b);
      BoundaryBelow(im.View(), key, b);
      if im.upper != [] { LessEqTrans(b, key, im.upper); }
    }
  }

  /** Whether the last slot's number fits, for a key of the full length that is not below it. */
  lemma NumberFits(d: Dense, key: Key, slots: nat)
    requires d.Ok() && |key| == d.fullKeyLen > 0 && slots > 0 && Less(d.lower, key)
    requires d.InArray(key) ==> Numeric(key, d.fullKeyLen) >= d.start + slots
    ensures d.start + slots - 1 < Pow256(NumericPartLen(d.fullKeyLen)) <==> d.InArray(key) || d.start + slots <= TWO_TO_THE_32
  {
    KeyParts(key);
    SmallPowers();
    NumericPrefixOf(key);
  }

  lemma LastBoundary(d: Dense, b: Key)
    requires d.Ok() && |d.cells| > 0 && d.start + |d.cells| - 1 < Pow256(NumericPartLen(d.fullKeyLen))
    requires b == d.KeyAt(|d.cells| - 1)
    ensures d.InArray(b) && Numeric(b, d.fullKeyLen) == d.start + |d.cells| - 1
    ensures LeastNumber(b, d.fullKeyLen) == d.start + |d.cells|
  {
    LastKey(d);
    GetNumericPartIs(b, d.fullKeyLen);
  }

  /** A key the array cannot take is above the last slot's key. */
  lemma BoundaryBelow(d: Dense, key: Key, b: Key)
    requires d.InArray(b) && |key| == d.fullKeyLen && Less(d.lower, key)
    requires d.InArray(key) ==> Numeric(b, d.fullKeyLen) < Numeric(key, d.fullKeyLen)
    ensures Less(b, key)
  {
    if d.InArray(key) {
      NumericOrder(b, key);
    } else {
      NumericPrefixOf(key);
      OutOfPrefix(d.lower, key, b);
    }
  }

  lemma NumericPrefixOf(k: Key)
    ensures NumericPrefix(k, |k|) == k[..NumericPrefixLength(|k|)]
  {
    assert Pad(k, |k|) == k;
  }

  /** The key of the last slot, whether in use or not, is a key of the array. */
  lemma LastKey(d: Dense)
    requires d.Ok() && |d.cells| > 0 && d.start + |d.cells| - 1 < Pow256(NumericPartLen(d.fullKeyLen))
    ensures var k := d.KeyAt(|d.cells| - 1);
      d.InArray(k) && Numeric(k, d.fullKeyLen) == d.start + |d.cells| - 1
  {
    KeyAtRestores(d, |d.cells| - 1);
    var k := d.KeyAt(|d.cells| - 1);
    RestoreKeyIs(d.start, d.fullKeyLen, d.lower, |d.cells| - 1);
    PadStarts(d.lower, d.fullKeyLen);
    assert StartNow(Unfold, d.start, d.lower, d.fullKeyLen);
    LeastNumberIs(d.lower, k);
  }

  /** All entries are at most the key of the last slot. */
  lemma BelowLast(d: Dense, fence: Key)
    requires d.Ok() && |d.cells| > 0 && d.start + |d.cells| - 1 < Pow256(NumericPartLen(d.fullKeyLen))
    requires fence == d.KeyAt(|d.cells| - 1)
    ensures Less(d.lower, fence) && forall e | e in d.Entries() :: Less(d.lower, e.key) && LessEq(e.key, fence)
  {
    LastKey(d);
    forall e | e in d.Entries() ensures Less(d.lower, e.key) && LessEq(e.key, fence) {
      var i := EntryCell(d, e);
      NumericOrder(e.key, fence);
      NumericOrder(fence, e.key);
      LessTotal(e.key, fence);
    }
  }

  /** The check of the last key in 32 bits is the plain one. */
  lemma LastReaches(n: Node, last: Key, start: nat, slots: nat, agrees: bool)
    requires |n.entries| > 0 && |last| == |n.entries[0].key| <= |n.lower| + NUMERIC_BYTES
    requires n.entries[|n.entries| - 1].key == last && Within(n.lower, n.upper, last) && slots < 0x1_0000
    requires start == LeastGreaterKey(n.lower, |last|)
    requires agrees <==> last[..NumericPrefixLength(|last|)] == n.lower[..NumericPrefixLength(|last|)]
    ensures LastInArray(n, slots) <==> agrees && Word32(Numeric(last, |last|) - start) < slots
  {
    LastIndex(n.lower, n.upper, last, start, slots);
  }

  /** With a key of its numeric prefix above it, the lower fence has not the largest number. */
  lemma NoOverflow(lower: Key, upper: Key, last: Key)
    requires Within(lower, upper, last) && NumericPrefixLength(|last|) <= |lower|
    requires last[..NumericPrefixLength(|last|)] == lower[..NumericPrefixLength(|last|)]
    ensures LeastGreaterKey(lower, |last|) == LeastNumber(lower, |last|) < TWO_TO_THE_32
  {
    OverflowIs(lower, |last|);
    if |last| > 0 {
      EmptyLeast(last);
      PadStarts(lower, |last|);
      LeastNumberIs(lower, last);
      GetNumericPartIs(last, |last|);
    }
  }

  /** Agreeing between the page's prefix and the number is having the numeric prefix of the lower fence. */
  lemma LastAgrees(lower: Key, prefix: Key, lastKey: Key)
    requires prefix <= lower && |prefix| + |lastKey| <= |lower| + NUMERIC_BYTES
    ensures var f := |prefix| + |lastKey|; var p := |prefix|;
            var differs := p + NUMERIC_BYTES < f && lower[p..f - NUMERIC_BYTES] != lastKey[..f - NUMERIC_BYTES - p];
      !differs <==> (prefix + lastKey)[..NumericPrefixLength(f)] == lower[..NumericPrefixLength(f)]
  {
    var last, f, p := prefix + lastKey, |prefix| + |lastKey|, |prefix|;
    assert last[..p] == prefix == lower[..p];
    SamePrefix(lower, p, last);
    if p + NUMERIC_BYTES < f {
      assert last[p..f - NUMERIC_BYTES] == lastKey[..f - NUMERIC_BYTES - p];
    }
  }

  /** The 32-bit difference of a key with the lower fence's numeric prefix is its index; the empty key's is far
      outside. */
  lemma LastIndex(lower: Key, upper: Key, last: Key, start: nat, slots: nat)
    requires Within(lower, upper, last) && NumericPrefixLength(|last|) <= |lower| && slots < 0x1_0000
    requires start == LeastGreaterKey(lower, |last|)
    ensures last[..NumericPrefixLength(|last|)] == lower[..NumericPrefixLength(|last|)] ==>
      (Word32(Numeric(last, |last|) - start) < slots <==> 0 <= Numeric(last, |last|) - LeastNumber(lower, |last|) < slots)
  {
    if last[..NumericPrefixLength(|last|)] == lower[..NumericPrefixLength(|last|)] {
      NoOverflow(lower, upper, last);
      NotBefore(lower, upper, last, start);
      SmallDifference(Numeric(last, |last|), start, slots);
    }
  }

  lemma SmallDifference(n: nat, start: nat, slots: nat)
    requires start <= n < TWO_TO_THE_32 || (n == 0 && start <= 1)
    requires slots < 0x1_0000
    ensures Word32(n - start) < slots <==> 0 <= n - start < slots
  {
  }

  /** The last key's number is one the array can reach from its start, but for the empty key. */
  lemma NotBefore(lower: Key, upper: Key, last: Key, start: nat)
    requires Within(lower, upper, last) && NumericPrefixLength(|last|) <= |lower|
    requires start == LeastNumber(lower, |last|) < TWO_TO_THE_32
    requires last[..NumericPrefixLength(|last|)] == lower[..NumericPrefixLength(|last|)]
    ensures start <= Numeric(last, |last|) < TWO_TO_THE_32 || (Numeric(last, |last|) == 0 && start <= 1)
  {
    KeyParts(last);
    Pow256Monotone(NumericPartLen(|last|), 4);
    assert Pow256(4) == TWO_TO_THE_32;
    if |last| > 0 {
      EmptyLeast(last);
      PadStarts(lower, |last|);
      LeastNumberIs(lower, last);
    }
  }

  /** The first i entries are in cells below next, and no other cell is in use. */
  ghost predicate Filled(d: Dense, es: seq<Entry>, i: nat, next: nat) {
    forall u: Unfold :: FilledNow(u, d, es, i, next)
  }

  ghost predicate FilledNow(u: Unfold, d: Dense, es: seq<Entry>, i: nat, next: nat) {
    && NumericPrefixLength(d.fullKeyLen) <= |d.lower| && i <= |es| && next <= |d.cells|
    && d.EntriesIn(0, next) == es[..i] && forall j: nat | j >= next :: !d.Present(j)
  }

  lemma NothingFilled(d: Dense, es: seq<Entry>)
    requires NumericPrefixLength(d.fullKeyLen) <= |d.lower| && d.cells == seq(|d.cells|, _ => None)
    ensures Filled(d, es, 0, 0)
  {
    assert d.EntriesIn(0, 0) == [] == es[..0];
    forall u: Unfold ensures FilledNow(u, d, es, 0, 0) {}
  }

  ghost function NextIndex(d: Dense, es: seq<Entry>, i: nat): int
    requires i <= |es|
  {
    if i == 0 then 0 else Numeric(es[i - 1].key, d.fullKeyLen) - d.start + 1
  }

  lemma AllFilled(d: Dense, es: seq<Entry>, next: nat)
    requires NumericPrefixLength(d.fullKeyLen) <= |d.lower| && Filled(d, es, |es|, next)
    ensures d.Entries() == es
  {
    assert FilledNow(Unfold, d, es, |es|, next);
    NonePresent(d, 0, next, |d.cells|);
    assert es[..|es|] == es;
    if next == 0 { assert d.EntriesIn(0, 0) == []; }
  }

  /** Every key of the plain page is a key of the array, and their indices ascend. */
  lemma FillIndex(d: Dense, n: Node, i: nat)
    requires Ordered(n) && i < |n.entries| && Densifiable(n, |d.cells|) && d.Sized()
    requires d.lower == n.lower && d.fullKeyLen == |n.entries[0].key| > 0
    ensures d.InArray(n.entries[i].key)
    ensures NextIndex(d, n.entries, i) <= Numeric(n.entries[i].key, d.fullKeyLen) - d.start < |d.cells|
    ensures 0 <= Numeric(n.entries[i].key, d.fullKeyLen) - d.start
  {
    assert DensifiableNow(Unfold, n, |d.cells|);
    KeyInArray(d, n, i);
    LastNumber(d, n);
    NumbersAscend(d, n, i, |n.entries| - 1);
    if i > 0 {
      NumbersAscend(d, n, i - 1, i);
    }
  }

  lemma LastNumber(d: Dense, n: Node)
    requires |n.entries| > 0 && LastInArray(n, |d.cells|) && d.Sized() && d.lower == n.lower && d.fullKeyLen == |n.entries[0].key|
    ensures Numeric(n.entries[|n.entries| - 1].key, d.fullKeyLen) - d.start < |d.cells|
  {
    assert StartNow(Unfold, d.start, d.lower, d.fullKeyLen);
  }

  lemma NumbersAscend(d: Dense, n: Node, i: nat, j: nat)
    requires Ordered(n) && i <= j < |n.entries| && Densifiable(n, |d.cells|) && d.Sized()
    requires d.lower == n.lower && d.fullKeyLen == |n.entries[0].key| > 0
    ensures i < j ==> Numeric(n.entries[i].key, d.fullKeyLen) < Numeric(n.entries[j].key, d.fullKeyLen)
  {
    if i < j {
      KeyInArray(d, n, i);
      KeyInArray(d, n, j);
      assert InOrder(n.entries, i, j);
      NumericOrder(n.entries[i].key, n.entries[j].key);
    }
  }

  lemma KeyInArray(d: Dense, n: Node, i: nat)
    requires Ordered(n) && i < |n.entries| && Densifiable(n, |d.cells|) && d.Sized()
    requires d.lower == n.lower && d.fullKeyLen == |n.entries[0].key| > 0
    ensures d.InArray(n.entries[i].key) && 0 <= Numeric(n.entries[i].key, d.fullKeyLen) - d.start
  {
    assert DensifiableNow(Unfold, n, |d.cells|);
    var es, f, np := n.entries, d.fullKeyLen, NumericPrefixLength(d.fullKeyLen);
    var key, last := es[i].key, es[|es| - 1].key;
    assert SameShape(es, i) && Within(n.lower, n.upper, key);
    EmptyLeast(key);
    SortedLessEq(es, i, |es| - 1);
    CommonPrefixAtLeast(n.lower, last, np);
    BetweenSharesPrefix(n.lower, key, last, np);
    PadStarts(n.lower, f);
    assert StartNow(Unfold, d.start, d.lower, f);
    LeastNumberIs(n.lower, key);
  }

  /** Nothing below the index of the next entry changes. */
  lemma FillBelow(d: Dense, d': Dense, es: seq<Entry>, i: nat, next: nat, index: nat, v: seq<Byte>)
    requires NumericPrefixLength(d.fullKeyLen) <= |d.lower| && d' == d.(cells := d'.cells)
    requires i < |es| && Filled(d, es, i, next) && next <= index < |d.cells| && d'.cells == d.cells[index := Some(v)]
    ensures d'.EntriesIn(0, index) == es[..i]
  {
    assert FilledNow(Unfold, d, es, i, next);
    NonePresent(d, 0, next, index);
    forall j: nat | 0 <= j < index ensures SameCell(d, d', j) {}
    EntriesSame(d, d', 0, index);
    if index == 0 { assert d.EntriesIn(0, 0) == [] && next == 0; }
  }

  /** Storing the next entry. */
  lemma FillCell(d: Dense, d': Dense, es: seq<Entry>, i: nat, next: nat, index: nat)
    requires d.Ok() && i < |es| && Filled(d, es, i, next) && next <= index < |d.cells|
    requires d' == d.(cells := d.cells[index := Some(es[i].payload)])
    requires d.InArray(es[i].key) && Numeric(es[i].key, d.fullKeyLen) == d.start + index
    ensures d.start + index < Pow256(NumericPartLen(d.fullKeyLen)) && Filled(d', es, i + 1, index + 1)
  {
    assert FilledNow(Unfold, d, es, i, next);
    KeyOfNumber(d, es[i].key, index);
    FillBelow(d, d', es, i, next, index, es[i].payload);
    FillAppends(d', es, i, index);
    forall j: nat | j >= index + 1 ensures !d'.Present(j) { assert !d.Present(j); }
  }

  lemma FillAppends(d: Dense, es: seq<Entry>, i: nat, index: nat)
    requires NumericPrefixLength(d.fullKeyLen) <= |d.lower| && i < |es| && d.EntriesIn(0, index) == es[..i]
    requires d.Present(index) && d.KeyAt(index) == es[i].key && d.cells[index].value == es[i].payload
    ensures d.EntriesIn(0, index + 1) == es[..i + 1]
  {
    assert es[..i + 1] == es[..i] + [es[i]];
  }

  ghost predicate SameShape(es: seq<Entry>, i: nat)
    requires i < |es|
  {
    |es[i].key| == |es[0].key| && |es[i].payload| == |es[0].payload|
  }

  ghost predicate Uniform(es: seq<Entry>) {
    forall i | 0 <= i < |es| :: SameShape(es, i)
  }

  /** The last key is in an array of that many slots starting above the lower fence. */
  ghost predicate LastInArray(n: Node, slots: nat)
    requires |n.entries| > 0
  {
    var f := |n.entries[0].key|;
    var last := n.entries[|n.entries| - 1].key;
    && NumericPrefixLength(f) <= |n.lower| && |last| == f
    && last[..NumericPrefixLength(f)] == n.lower[..NumericPrefixLength(f)]
    && 0 <= Numeric(last, f) - LeastNumber(n.lower, f) < slots
  }

  /** When densify1 succeeds. Unfolded only where DensifiableNow is mentioned. */
  ghost predicate Densifiable(n: Node, slots: nat) {
    forall u: Unfold :: DensifiableNow(u, n, slots)
  }

  ghost predicate DensifiableNow(u: Unfold, n: Node, slots: nat) {
    |n.entries| > 0 && |n.lower| + NUMERIC_BYTES >= |n.entries[0].key| && Uniform(n.entries) && LastInArray(n, slots)
  }

  lemma DensifiableIs(n: Node, slots: nat)
    ensures Densifiable(n, slots) <==>
      |n.entries| > 0 && |n.lower| + NUMERIC_BYTES >= |n.entries[0].key| && Uniform(n.entries) && LastInArray(n, slots)
  {
    assert Densifiable(n, slots) ==> DensifiableNow(Unfold, n, slots);
  }

  /** A leaf can be densified if and only if all keys and all payloads have one length, at most the numeric part longer
      than the lower fence, and the last key, and so every key, has the fence's numeric prefix and a number less than slots
      above the first one behind the fence. */
  lemma DensifiableWhen(n: Node, slots: nat)
    requires |n.entries| > 0
    ensures Densifiable(n, slots) <==>
      var f, last := |n.entries[0].key|, n.entries[|n.entries| - 1].key;
      var numeric := if f < 4 then 0 else f - 4;
      && (forall i | 0 <= i < |n.entries| :: |n.entries[i].key| == f && |n.entries[i].payload| == |n.entries[0].payload|)
      && f <= |n.lower| + 4 && |last| == f && last[..numeric] == n.lower[..numeric]
      && LeastNumber(n.lower, f) <= Numeric(last, f) < LeastNumber(n.lower, f) + slots
  {
    DensifiableIs(n, slots);
    var f := |n.entries[0].key|;
    if forall i | 0 <= i < |n.entries| :: |n.entries[i].key| == f && |n.entries[i].payload| == |n.entries[0].payload| {
      forall i | 0 <= i < |n.entries| ensures SameShape(n.entries, i) {}
    }
    if Uniform(n.entries) {
      forall i | 0 <= i < |n.entries| ensures |n.entries[i].key| == f && |n.entries[i].payload| == |n.entries[0].payload| {
        assert SameShape(n.entries, i);
      }
    }
  }

  /** A page that can be densified has no empty key, and its prefix is inside all keys. */
  lemma CanBuild(n: Node, slots: nat, start: nat)
    requires Ordered(n) && Densifiable(n, slots) && |n.entries| > 0 && start == LeastGreaterKey(n.lower, |n.entries[0].key|)
    ensures start < TWO_TO_THE_32 && IsStart(start, n.lower, |n.entries[0].key|) && NumericPrefixLength(|n.entries[0].key|) <= |n.lower|
    ensures PrefixLength(n) <= |n.entries[0].key| && |n.entries[0].key| > 0
  {
    DensifiableIs(n, slots);
    KeysHavePrefix(n);
    OverflowIs(n.lower, |n.entries[0].key|);
    GetNumericPartIs(n.entries[|n.entries| - 1].key, |n.entries[0].key|);
    StartIs(start, n.lower, |n.entries[0].key|);
    EmptyKeyNumber(n.entries[|n.entries| - 1].key);
  }

  lemma WrapIsRefused(n: Node, slots: nat)
    requires Densifiable(n, slots) && |n.entries| > 0
    ensures !SumWraps(n.lower, |n.entries[0].key|)
  {
    DensifiableIs(n, slots);
    OverflowIs(n.lower, |n.entries[0].key|);
    GetNumericPartIs(n.entries[|n.entries| - 1].key, |n.entries[0].key|);
  }

  lemma EmptyKeyNumber(k: Key)
    ensures |k| == 0 ==> Numeric(k, 0) == 0
  {
    NumericIs(k, 0);
  }

  lemma UniformAt(n: Node, slots: nat, i: nat)
    requires Densifiable(n, slots) && i < |n.entries|
    ensures |n.entries[i].key| == |n.entries[0].key| && |n.entries[i].payload| == |n.entries[0].payload|
  {
    assert DensifiableNow(Unfold, n, slots) && SameShape(n.entries, i);
  }

  lemma FencesLeaveRoom(lowerLen: nat, upperLen: nat, fullKeyLen: nat)
    requires lowerLen <= MaxKVSize() && upperLen <= MaxKVSize() && fullKeyLen <= MaxKVSize()
    ensures maskOffset <= FencesStart(lowerLen, upperLen, fullKeyLen)
  {
  }

  lemma FewerFit(m: nat, n: nat, valLen: nat, fencesStart: nat)
    requires m <= n && SlotsFit(n, valLen, fencesStart)
    ensures SlotsFit(m, valLen, fencesStart)
  {
    CellBytesMonotone(valLen, m, n);
  }

  lemma EntriesShare(es: seq<Entry>, lower: Key, upper: Key)
    requires AllWithin(es, lower, upper)
    ensures AllStartWith(es, FencePrefix(lower, upper))
  {
    forall i | 0 <= i < |es| ensures StartsWith(es[i], FencePrefix(lower, upper)) {
      WithinSharesPrefix(lower, upper, es[i].key);
    }
  }
}