/** Dense pages and keys for which range_lookup1 and splitNode1 do not do what they are for. */
module DenseFaults {
  import opened Bytes
  import opened Bits
  import opened Layout
  import opened Nodes
  import opened BigEndian
  import opened DenseKeys
  import opened DenseCells
  import opened DenseNodes
  import HashImages

  /** A page for keys of four bytes with an empty lower fence, 64 slots, the first in use, and every byte b. */
  ghost function OneCell(b: Byte, upperLen: nat, valLen: nat): DenseImage {
    DenseImage(4, LeastNumber([], 4), valLen, 64, 0, upperLen, 0, [1], seq(sizes.leaf, _ => b), [], seq(upperLen, _ => b),
               seq(64, i => if i == 0 then Some(seq(valLen, _ => b)) else None))
  }

  /** computeSlotCount makes it as many slots. */
  ghost predicate MostSlots(count: nat, valLen: nat, fencesStart: nat) {
    SlotsFit(count, valLen, fencesStart) && forall more: nat | more > count :: !SlotsFit(more, valLen, fencesStart)
  }

  lemma OneBit()
    ensures WordsOk([1]) && forall i: nat :: BitAt([1], i) <==> i == 0
  {
    forall k: nat ensures Bit(1, k) <==> k == 0 {
      if k > 0 { ZeroHasNoBit(k - 1); }
    }
    assert IsWord(1);
  }

  lemma SameByteAll(b: Byte, offset: nat, n: nat)
    requires offset + n <= sizes.leaf
    ensures HashImages.BytesAt(seq(sizes.leaf, _ => b), offset, seq(n, _ => b)) && seq(0, _ => b) == []
  {
    HashImages.BytesAtIs(seq(sizes.leaf, _ => b), offset, seq(n, _ => b));
  }

  /** With values of the right length 64 is what computeSlotCount yields. */
  lemma SixtyFourSlots(room: nat) returns (valLen: nat)
    requires room >= maskOffset + 3592
    ensures valLen > 0 && MostSlots(64, valLen, room)
  {
    valLen := (room - maskOffset - 8) / 64;
    CellBytesIs(valLen, 64);
    CellBytesIs(valLen, 65);
    forall more: nat | more > 64 ensures !SlotsFit(more, valLen, room) {
      if SlotsFit(more, valLen, room) { FewerFit(65, more, valLen, room); }
    }
  }

  lemma OneCellOk(b: Byte, upperLen: nat, valLen: nat)
    requires upperLen <= 4 && sizes.leaf >= 4 && SlotsFit(64, valLen, sizes.leaf - 4)
    ensures OneCell(b, upperLen, valLen).Ok()
  {
    var im := OneCell(b, upperLen, valLen);
    CommonPrefixIs([], im.upper, 0);
    OneBit();
    forall i: nat | i < 64 ensures CellOk(im.mask, im.page, im.Values(), valLen, im.cells, i) {
      CellBytesMonotone(valLen, i, 64);
      SameByteAll(b, im.Values() + CellBytes(valLen, i), valLen);
    }
    SameByteAll(b, sizes.leaf, 0);
    SameByteAll(b, im.FenceStart(), upperLen);
    assert im.FencesOk();
    assert im.SlotsOk();
    SmallPowers();
    StartIs(im.arrayStart, [], 4);
    forall i | 0 <= i < |im.cells| ensures im.View().Fitting(i) {}
    DenseOkIs(im);
  }

  /** Its one entry. */
  lemma OneEntry(b: Byte, upperLen: nat, valLen: nat)
    requires upperLen == 0 || (upperLen == 4 && b == 0)
    ensures var d := OneCell(b, upperLen, valLen).View(); d.start == 0 && |d.Entries()| == 1 && Counted(d, 1)
  {
    var d := OneCell(b, upperLen, valLen).View();
    NonePresent(d, 0, 1, 64);
    assert d.EntriesIn(0, 0) == [];
    assert d.EntriesIn(0, 1) == [Entry(d.KeyAt(0), d.cells[0].value)];
    SlotKey(d, 0);
    EmptyLeast(d.upper);
    CountedIs(d, 1);
  }

  lemma FourBytes(x: Byte)
    ensures BigBytes(4, x) == [0, 0, 0, x]
  {
    assert BigBytes(1, 0) == [0];
    assert BigBytes(2, 0) == [0, 0];
    assert BigBytes(3, 0) == [0, 0, 0];
  }

  lemma SlotKey(d: Dense, i: Byte)
    requires d.lower == [] && d.fullKeyLen == 4 && d.start == 0
    ensures d.KeyAt(i) == [0, 0, 0, i]
  {
    KeyAtRestores(d, i);
    SmallWord(i);
    FourBytes(i);
    assert RestoreKey(0, 4, [], i) == BigBytes(4, i);
  }

  /** The scan from key 64 reads the lowest bit of the first cell as that of slot 64, which the page does not have. */
  lemma BehindHappens() returns (valLen: nat)
    requires sizes.leaf >= maskOffset + 3596
    ensures var im := OneCell(1, 0, valLen); var key := [0, 0, 0, 64];
      && im.Ok() && Counted(im.View(), 1) && MostSlots(64, valLen, im.FenceStart()) && Within(im.lower, im.upper, key)
      && Walks(im, Some(key)) && ReadsBehind(im, FirstSlot(im, Some(key)))
  {
    valLen := SixtyFourSlots(sizes.leaf - 4);
    OneCellOk(1, 0, valLen);
    OneEntry(1, 0, valLen);
    var key: Key := [0, 0, 0, 64];
    assert GetNumericPart(key, 4) == 64;
    assert Pad(key, 4)[..0] == [];
    CellBytesIs(valLen, 64);
  }

  /** The scan from the last key but one loads a word that is not in the page. */
  lemma OffPageHappens() returns (valLen: nat)
    requires sizes.leaf >= maskOffset + 3596
    ensures var im := OneCell(1, 0, valLen); var key := [255, 255, 255, 254];
      && im.Ok() && Counted(im.View(), 1) && MostSlots(64, valLen, im.FenceStart()) && Within(im.lower, im.upper, key)
      && Walks(im, Some(key)) && LeavesPage(FirstSlot(im, Some(key)))
  {
    valLen := SixtyFourSlots(sizes.leaf - 4);
    OneCellOk(1, 0, valLen);
    OneEntry(1, 0, valLen);
    var key: Key := [255, 255, 255, 254];
    assert GetNumericPart(key, 4) == TWO_TO_THE_32 - 2;
    assert Pad(key, 4)[..0] == [];
  }

  /** The scan from a key above all keys of four bytes shows the entry. */
  lemma WrapHappens() returns (valLen: nat)
    requires sizes.leaf >= maskOffset + 3596
    ensures var im := OneCell(1, 0, valLen); var key := [255, 255, 255, 255, 0];
      && im.Ok() && Counted(im.View(), 1) && MostSlots(64, valLen, im.FenceStart()) && Within(im.lower, im.upper, key)
      && ScansAll(im, Some(key)) && |im.View().Entries()| == 1 && ListsFrom(im.View(), key, [])
  {
    valLen := SixtyFourSlots(sizes.leaf - 4);
    OneCellOk(1, 0, valLen);
    OneEntry(1, 0, valLen);
    var key: Key := [255, 255, 255, 255, 0];
    var cut: Key := [255, 255, 255, 255];
    assert key[..4] == cut && LoadTail(cut) == TWO_TO_THE_32 - 1;
    assert Pad(key, 4)[..0] == [];
    DenseBounds(OneCell(1, 0, valLen));
    ScanOwes(OneCell(1, 0, valLen).View(), key);
  }

  /** A full page with the upper fence 0 and an entry of another key length to come would be split at key 63. */
  lemma MisplacedHappens() returns (valLen: nat)
    requires sizes.leaf >= maskOffset + 3596
    ensures var im := OneCell(0, 4, valLen); var key := [0];
      && im.Ok() && Counted(im.View(), 1) && MostSlots(64, valLen, im.FenceStart()) && Within(im.lower, im.upper, key)
      && !HasIndex(im, key) && !ProperBoundary(im)
  {
    valLen := SixtyFourSlots(sizes.leaf - 4);
    OneCellOk(0, 4, valLen);
    OneEntry(0, 4, valLen);
    SlotKey(OneCell(0, 4, valLen).View(), 63);
    ZeroFence(OneCell(0, 4, valLen).upper);
  }

  lemma ZeroFence(upper: Key)
    requires upper == seq(4, _ => 0)
    ensures Less([0], upper) && !LessEq([0, 0, 0, 63], upper)
  {
    var k: Key, b: Key := [0], [0, 0, 0, 63];
    assert k[..1] == upper[..1] && b[..3] == upper[..3];
    CommonPrefixIs(k, upper, 1);
    CommonPrefixIs(b, upper, 3);
  }
}
