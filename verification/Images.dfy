/** A slotted page's memory as a value, its layout invariant, and what one store does to it. */
module Images {
  import opened Bytes
  import opened Heads
  import opened Layout
  import opened Nodes

  datatype Fence = Fence(offset: nat, length: nat)

  datatype Slot = Slot(offset: nat, keyLen: nat, payloadLen: nat, head: nat)

  // ---- bytes ----

  /** memcpy of bytes to heap + off. */
  function Write(heap: seq<Byte>, off: nat, bytes: seq<Byte>): (r: seq<Byte>)
    requires off + |bytes| <= |heap|
    ensures |r| == |heap|
    ensures r[off..off + |bytes|] == bytes
    ensures r[off + |bytes|..] == heap[off + |bytes|..]
  {
    heap[..off] + bytes + heap[off + |bytes|..]
  }

  /** heap holds bytes at offset, at or after from. */
  ghost predicate Holds(heap: seq<Byte>, from: int, offset: nat, bytes: seq<Byte>) {
    && (|bytes| == 0 || from <= offset)
    && offset + |bytes| <= |heap|
    && heap[offset..offset + |bytes|] == bytes
  }

  /** Writing below does not disturb what is held. */
  lemma HoldsUnchanged(heap: seq<Byte>, heap': seq<Byte>, from: nat, from': int, offset: nat, bytes: seq<Byte>)
    requires from <= |heap| == |heap'| && heap'[from..] == heap[from..] && from' <= from
    requires Holds(heap, from, offset, bytes)
    ensures Holds(heap', from', offset, bytes)
  {
    forall i | offset <= i < offset + |bytes|
      ensures heap'[i] == bytes[i - offset]
    {
      assert heap'[i] == heap'[from..][i - from] == heap[from..][i - from] == heap[offset..offset + |bytes|][i - offset];
    }
  }

  lemma HoldsParts(heap: seq<Byte>, from: int, offset: nat, a: seq<Byte>, b: seq<Byte>)
    requires from <= offset && Holds(heap, from, offset, a + b)
    ensures Holds(heap, from, offset, a) && Holds(heap, from, offset + |a|, b)
  {
    var all := heap[offset..offset + |a + b|];
    assert heap[offset..offset + |a|] == all[..|a|];
    assert heap[offset + |a|..offset + |a| + |b|] == all[|a|..];
  }

  // ---- slots ----

  /** The slot's key and payload bytes are those of the entry, and its head is the stored key's. */
  ghost predicate SlotHolds(heap: seq<Byte>, from: int, prefix: Key, s: Slot, e: Entry) {
    && prefix <= e.key
    && s.keyLen == |e.key| - |prefix| && s.payloadLen == |e.payload|
    && from <= s.offset
    && Holds(heap, from, s.offset, e.key[|prefix|..])
    && Holds(heap, from, s.offset + s.keyLen, e.payload)
    && s.head == Head(e.key[|prefix|..])
  }

  ghost predicate SlotHoldsAt(heap: seq<Byte>, from: int, prefix: Key, slots: seq<Slot>, es: seq<Entry>, i: nat)
    requires i < |slots| && i < |es|
  {
    SlotHolds(heap, from, prefix, slots[i], es[i])
  }

  ghost predicate SlotsHold(heap: seq<Byte>, from: int, prefix: Key, slots: seq<Slot>, es: seq<Entry>) {
    |slots| == |es| && forall i | 0 <= i < |slots| :: SlotHoldsAt(heap, from, prefix, slots, es, i)
  }

  ghost predicate Apart(o1: nat, l1: nat, o2: nat, l2: nat) {
    l1 == 0 || l2 == 0 || o1 + l1 <= o2 || o2 + l2 <= o1
  }

  ghost predicate ApartAt(slots: seq<Slot>, i: nat, j: nat)
    requires i < |slots| && j < |slots|
  {
    Apart(slots[i].offset, slots[i].keyLen + slots[i].payloadLen, slots[j].offset, slots[j].keyLen + slots[j].payloadLen)
  }

  /** No two slots use the same byte. */
  ghost predicate SlotsApart(slots: seq<Slot>) {
    forall i, j | 0 <= i < j < |slots| :: ApartAt(slots, i, j)
  }

  ghost predicate FenceApartAt(f: Fence, slots: seq<Slot>, i: nat)
    requires i < |slots|
  {
    Apart(f.offset, f.length, slots[i].offset, slots[i].keyLen + slots[i].payloadLen)
  }

  ghost predicate FenceApart(f: Fence, slots: seq<Slot>) {
    forall i | 0 <= i < |slots| :: FenceApartAt(f, slots, i)
  }

  lemma SlotsHoldInsert(heap: seq<Byte>, heap': seq<Byte>, from: nat, from': nat, prefix: Key,
                        slots: seq<Slot>, es: seq<Entry>, pos: nat, s: Slot, e: Entry)
    requires from' <= from <= |heap| == |heap'| && heap'[from..] == heap[from..]
    requires SlotsHold(heap, from, prefix, slots, es) && pos <= |slots|
    requires SlotHolds(heap', from', prefix, s, e)
    ensures SlotsHold(heap', from', prefix, Inserted(slots, pos, s), Inserted(es, pos, e))
  {
    var r, q := Inserted(slots, pos, s), Inserted(es, pos, e);
    forall i | 0 <= i < |r|
      ensures SlotHoldsAt(heap', from', prefix, r, q, i)
    {
      if i != pos {
        var i' := if i < pos then i else i - 1;
        assert SlotHoldsAt(heap, from, prefix, slots, es, i');
        HoldsUnchanged(heap, heap', from, from', slots[i'].offset, es[i'].key[|prefix|..]);
        HoldsUnchanged(heap, heap', from, from', slots[i'].offset + slots[i'].keyLen, es[i'].payload);
      }
    }
  }

  lemma SlotsApartInsert(heap: seq<Byte>, from: nat, prefix: Key, slots: seq<Slot>, es: seq<Entry>, pos: nat, s: Slot)
    requires SlotsHold(heap, from, prefix, slots, es) && SlotsApart(slots) && pos <= |slots|
    requires s.offset + s.keyLen + s.payloadLen == from
    ensures SlotsApart(Inserted(slots, pos, s))
  {
    var r := Inserted(slots, pos, s);
    forall i, j | 0 <= i < j < |r|
      ensures ApartAt(r, i, j)
    {
      if i == pos {
        assert SlotHoldsAt(heap, from, prefix, slots, es, j - 1);
      } else if j == pos {
        assert SlotHoldsAt(heap, from, prefix, slots, es, i);
      } else {
        assert ApartAt(slots, if i < pos then i else i - 1, if j < pos then j else j - 1);
      }
    }
  }

  lemma FenceApartInsert(f: Fence, from: nat, slots: seq<Slot>, pos: nat, s: Slot)
    requires FenceApart(f, slots) && pos <= |slots|
    requires f.length == 0 || from <= f.offset
    requires s.offset + s.keyLen + s.payloadLen == from
    ensures FenceApart(f, Inserted(slots, pos, s))
  {
    var r := Inserted(slots, pos, s);
    forall i | 0 <= i < |r|
      ensures FenceApartAt(f, r, i)
    {
      if i != pos { assert FenceApartAt(f, slots, if i < pos then i else i - 1); }
    }
  }

  // ---- sizes ----

  lemma {:induction false} SizeUpToPrefix(a: seq<Entry>, b: seq<Entry>, p: nat, n: nat)
    requires n <= |a|
    ensures SizeUpTo(a + b, p, n) == SizeUpTo(a, p, n)
  {
    if n > 0 {
      SizeUpToPrefix(a, b, p, n - 1);
    }
  }

  lemma {:induction false} SizeUpToConcat(a: seq<Entry>, b: seq<Entry>, p: nat, n: nat)
    requires n <= |b|
    ensures SizeUpTo(a + b, p, |a| + n) == StoredSize(a, p) + SizeUpTo(b, p, n)
  {
    if n == 0 {
      SizeUpToPrefix(a, b, p, |a|);
    } else {
      SizeUpToConcat(a, b, p, n - 1);
    }
  }

  lemma StoredSizeConcat(a: seq<Entry>, b: seq<Entry>, p: nat)
    ensures StoredSize(a + b, p) == StoredSize(a, p) + StoredSize(b, p)
  {
    SizeUpToConcat(a, b, p, |b|);
  }

  lemma StoredSizeOne(e: Entry, p: nat)
    ensures StoredSize([e], p) == |e.key| - p + |e.payload|
  {
    assert SizeUpTo([e], p, 0) == 0;
  }

  lemma {:induction false} SizeUpToShift(es: seq<Entry>, p: nat, q: nat, n: nat)
    requires n <= |es|
    ensures SizeUpTo(es, p, n) == SizeUpTo(es, q, n) + (q - p) * n
  {
    if n > 0 {
      SizeUpToShift(es, p, q, n - 1);
      assert (q - p) * n == (q - p) * (n - 1) + (q - p);
    }
  }

  /** A longer prefix shrinks every key by the difference. */
  lemma StoredSizeShift(es: seq<Entry>, p: nat, q: nat)
    ensures StoredSize(es, p) == StoredSize(es, q) + (q - p) * |es|
  {
    SizeUpToShift(es, p, q, |es|);
  }

  lemma {:induction false} SizeUpToNonNegative(es: seq<Entry>, p: nat, n: nat)
    requires n <= |es| && forall i | 0 <= i < |es| :: p <= |es[i].key|
    ensures SizeUpTo(es, p, n) >= 0
  {
    if n > 0 {
      SizeUpToNonNegative(es, p, n - 1);
    }
  }

  lemma StoredSizeNonNegative(es: seq<Entry>, p: nat)
    requires forall i | 0 <= i < |es| :: p <= |es[i].key|
    ensures StoredSize(es, p) >= 0
  {
    SizeUpToNonNegative(es, p, |es|);
  }

  lemma StoredSizeInsert(es: seq<Entry>, pos: nat, e: Entry, p: nat)
    requires pos <= |es|
    ensures StoredSize(Inserted(es, pos, e), p) == StoredSize(es, p) + |e.key| - p + |e.payload|
  {
    assert es == es[..pos] + es[pos..];
    StoredSizeConcat(es[..pos], es[pos..], p);
    StoredSizeConcat(es[..pos], [e], p);
    StoredSizeConcat(es[..pos] + [e], es[pos..], p);
    StoredSizeOne(e, p);
  }

  lemma StoredSizeRemove(es: seq<Entry>, pos: nat, p: nat)
    requires pos < |es|
    ensures StoredSize(Removed(es, pos), p) == StoredSize(es, p) - (|es[pos].key| - p + |es[pos].payload|)
  {
    assert es == Inserted(Removed(es, pos), pos, es[pos]);
    StoredSizeInsert(Removed(es, pos), pos, es[pos], p);
  }

  lemma StoredSizeFirst(es: seq<Entry>, i: nat, p: nat)
    requires i < |es|
    ensures StoredSize(es[i..], p) == |es[i].key| - p + |es[i].payload| + StoredSize(es[i + 1..], p)
  {
    assert es[i..] == [es[i]] + es[i + 1..];
    StoredSizeConcat([es[i]], es[i + 1..], p);
    StoredSizeOne(es[i], p);
  }

  // ---- the layout invariant ----

  /** The clauses of the layout invariant, kept apart so that each is unfolded only where it is mentioned. */
  datatype Clause =
    | FencesInPage      // both fences lie in [dataOffset, page end)
    | SlotsInPage       // so does every slot's key and payload; they are the entries', heads included
    | SlotsBeforeData   // the slot array ends at or before dataOffset
    | RangesDisjoint    // no byte belongs to two live ranges
    | SharedPrefix      // prefixLength is what the fences share
    | SpaceCounted      // spaceUsed is the total length of all live ranges
    | SpaceBounded      // and fits between dataOffset and the page end

  /** A page's fields with the slots in use, together with the fences and entries they stand for. */
  datatype Image = Image(isLeaf: bool, spaceUsed: nat, dataOffset: nat, lowerFence: Fence, upperFence: Fence,
                         prefixLength: nat, slots: seq<Slot>, heap: seq<Byte>,
                         lower: Key, upper: Key, entries: seq<Entry>)
  {
    ghost function Prefix(): Key {
      if prefixLength <= |lower| then lower[..prefixLength] else lower
    }

    ghost predicate Ok() {
      forall c: Clause :: Keeps(c)
    }

    ghost predicate Keeps(c: Clause) {
      match c
      case FencesInPage =>
        && |heap| == PageSize(isLeaf)
        && lowerFence.length == |lower| && upperFence.length == |upper|
        && Holds(heap, dataOffset, lowerFence.offset, lower)
        && Holds(heap, dataOffset, upperFence.offset, upper)
      case SlotsInPage => SlotsHold(heap, dataOffset, Prefix(), slots, entries)
      case SlotsBeforeData => sizes.header + SlotBytes(|slots|) <= dataOffset
      case RangesDisjoint =>
        && Apart(lowerFence.offset, lowerFence.length, upperFence.offset, upperFence.length)
        && SlotsApart(slots)
        && FenceApart(lowerFence, slots) && FenceApart(upperFence, slots)
      case SharedPrefix => prefixLength == CommonPrefix(lower, upper)
      case SpaceCounted => spaceUsed == |lower| + |upper| + StoredSize(entries, prefixLength)
      case SpaceBounded => spaceUsed + dataOffset <= |heap| == PageSize(isLeaf)
    }
  }

  /** What a page in order always satisfies, without looking at bytes. */
  lemma Basics(im: Image)
    requires im.Ok()
    ensures |im.slots| == |im.entries|
    ensures im.prefixLength == CommonPrefix(im.lower, im.upper) <= |im.lower|
    ensures |im.Prefix()| == im.prefixLength
    ensures |im.heap| == PageSize(im.isLeaf) && im.spaceUsed + im.dataOffset <= PageSize(im.isLeaf)
    ensures sizes.header + SlotBytes(|im.entries|) <= im.dataOffset
  {
    assert im.Keeps(SlotsInPage) && im.Keeps(SlotsBeforeData) && im.Keeps(SharedPrefix) && im.Keeps(SpaceBounded);
  }

  lemma PrefixIsShared(im: Image)
    requires im.Ok()
    ensures im.Prefix() == FencePrefix(im.lower, im.upper) && |im.Prefix()| == im.prefixLength
  {
    Basics(im);
  }

  /** Every key starts with the page's prefix, and the slot tells key and payload apart. */
  lemma SlotAt(im: Image, i: nat)
    requires im.Ok() && i < |im.slots|
    ensures |im.entries| == |im.slots|
    ensures im.Prefix() <= im.entries[i].key && |im.Prefix()| == im.prefixLength
    ensures SlotHolds(im.heap, im.dataOffset, im.Prefix(), im.slots[i], im.entries[i])
  {
    Basics(im);
    assert im.Keeps(SlotsInPage);
    assert SlotHoldsAt(im.heap, im.dataOffset, im.Prefix(), im.slots, im.entries, i);
  }

  /** An image of a page with only its two fences: the lower at the very end, the upper just before it. */
  lemma FreshOk(im: Image)
    requires |im.heap| == PageSize(im.isLeaf) && im.slots == [] && im.entries == []
    requires sizes.header <= im.dataOffset
    requires im.lowerFence == Fence(im.dataOffset + |im.upper|, |im.lower|) && im.upperFence == Fence(im.dataOffset, |im.upper|)
    requires im.dataOffset + |im.upper| + |im.lower| == PageSize(im.isLeaf) && im.spaceUsed == |im.lower| + |im.upper|
    requires Holds(im.heap, im.dataOffset, im.lowerFence.offset, im.lower)
    requires Holds(im.heap, im.dataOffset, im.upperFence.offset, im.upper)
    requires im.prefixLength == CommonPrefix(im.lower, im.upper)
    ensures im.Ok()
  {
    forall c: Clause ensures im.Keeps(c) {}
  }

  // ---- storing ----

  /** What writing a key without its prefix and a payload below dataOffset and their slot at slotId does. */
  ghost predicate Stores(slot: seq<Slot>, heap: seq<Byte>, dataOffset: nat, spaceUsed: nat,
                         slot': seq<Slot>, heap': seq<Byte>, dataOffset': nat, spaceUsed': nat,
                         slotId: nat, stored: Key, payload: seq<Byte>)
    requires slotId < |slot| && dataOffset <= |heap|
  {
    && dataOffset' + |stored| + |payload| == dataOffset
    && spaceUsed' == spaceUsed + |stored| + |payload|
    && slot' == slot[slotId := Slot(dataOffset', |stored|, |payload|, Head(stored))]
    && |heap'| == |heap| && heap'[dataOffset..] == heap[dataOffset..]
    && Holds(heap', dataOffset', dataOffset', stored + payload)
  }

  /** The image after e is stored below everything else with its slot at pos. */
  ghost predicate StoredInto(was: Image, now: Image, pos: nat, e: Entry) {
    && was.Prefix() <= e.key && pos <= |was.slots| && pos <= |was.entries|
    && now.lowerFence == was.lowerFence && now.upperFence == was.upperFence
    && now.prefixLength == was.prefixLength && now.isLeaf == was.isLeaf
    && now.lower == was.lower && now.upper == was.upper
    && now.dataOffset + |e.key| - |was.Prefix()| + |e.payload| == was.dataOffset <= |was.heap| == |now.heap|
    && now.spaceUsed == was.spaceUsed + |e.key| - |was.Prefix()| + |e.payload|
    && now.heap[was.dataOffset..] == was.heap[was.dataOffset..]
    && Holds(now.heap, now.dataOffset, now.dataOffset, e.key[|was.Prefix()|..] + e.payload)
    && now.slots == Inserted(was.slots, pos, Slot(now.dataOffset, |e.key| - |was.Prefix()|, |e.payload|, Head(e.key[|was.Prefix()|..])))
    && now.entries == Inserted(was.entries, pos, e)
  }

  lemma StoredIntoSlots(was: Image, now: Image, pos: nat, e: Entry)
    requires was.Ok() && StoredInto(was, now, pos, e)
    ensures now.Keeps(SlotsInPage) && now.Keeps(RangesDisjoint) && now.Keeps(FencesInPage)
  {
    StoredIntoHolds(was, now, pos, e);
    StoredIntoApart(was, now, pos, e);
    StoredIntoFences(was, now, pos, e);
  }

  lemma StoredIntoHolds(was: Image, now: Image, pos: nat, e: Entry)
    requires was.Ok() && StoredInto(was, now, pos, e)
    ensures now.Keeps(SlotsInPage)
  {
    assert was.Keeps(SlotsInPage);
    HoldsParts(now.heap, now.dataOffset, now.dataOffset, e.key[|was.Prefix()|..], e.payload);
    SlotsHoldInsert(was.heap, now.heap, was.dataOffset, now.dataOffset, was.Prefix(), was.slots, was.entries, pos, now.slots[pos], e);
  }

  lemma StoredIntoApart(was: Image, now: Image, pos: nat, e: Entry)
    requires was.Ok() && StoredInto(was, now, pos, e)
    ensures now.Keeps(RangesDisjoint)
  {
    var s := now.slots[pos];
    assert was.Keeps(SlotsInPage) && was.Keeps(RangesDisjoint) && was.Keeps(FencesInPage);
    SlotsApartInsert(was.heap, was.dataOffset, was.Prefix(), was.slots, was.entries, pos, s);
    FenceApartInsert(was.lowerFence, was.dataOffset, was.slots, pos, s);
    FenceApartInsert(was.upperFence, was.dataOffset, was.slots, pos, s);
  }

  lemma StoredIntoFences(was: Image, now: Image, pos: nat, e: Entry)
    requires was.Ok() && StoredInto(was, now, pos, e)
    ensures now.Keeps(FencesInPage)
  {
    assert was.Keeps(FencesInPage);
    HoldsUnchanged(was.heap, now.heap, was.dataOffset, now.dataOffset, was.lowerFence.offset, was.lower);
    HoldsUnchanged(was.heap, now.heap, was.dataOffset, now.dataOffset, was.upperFence.offset, was.upper);
  }

  /** Storing keeps the layout when the slot array still ends before the data. */
  lemma StoredIntoOk(was: Image, now: Image, pos: nat, e: Entry)
    requires was.Ok() && StoredInto(was, now, pos, e)
    requires sizes.header + SlotBytes(|now.slots|) <= now.dataOffset
    ensures now.Ok()
  {
    Basics(was);
    StoredIntoSlots(was, now, pos, e);
    StoredSizeInsert(was.entries, pos, e, was.prefixLength);
    assert was.Keeps(SharedPrefix) && was.Keeps(SpaceCounted) && was.Keeps(SpaceBounded);
    forall c: Clause ensures now.Keeps(c) {}
  }

  lemma InsertedAtEnd<T>(xs: seq<T>, n: nat, x: T)
    requires n < |xs|
    ensures xs[n := x][..n + 1] == Inserted(xs[..n], n, x)
  {
  }

  /** Storing as slot n of slots whose first n are in use appends the entry. */
  lemma StoresAtEnd(was: Image, now: Image, slot: seq<Slot>, slot': seq<Slot>, n: nat, e: Entry, stored: Key)
    requires was.Ok() && n < |slot| && was.slots == slot[..n] && was.dataOffset <= |was.heap|
    requires e.key == was.Prefix() + stored
    requires now == Image(was.isLeaf, now.spaceUsed, now.dataOffset, was.lowerFence, was.upperFence, was.prefixLength,
                          now.slots, now.heap, was.lower, was.upper, was.entries + [e])
    requires Stores(slot, was.heap, was.dataOffset, was.spaceUsed, slot', now.heap, now.dataOffset, now.spaceUsed, n, stored, e.payload)
    requires now.slots == slot'[..n + 1]
    requires sizes.header + SlotBytes(n + 1) <= now.dataOffset
    ensures now.Ok()
  {
    Basics(was);
    InsertedAtEnd(slot, n, slot'[n]);
    assert e.key[|was.Prefix()|..] == stored;
    assert was.entries + [e] == Inserted(was.entries, n, e);
    StoredIntoOk(was, now, n, e);
  }

  /** memmove of the slots from pos to n up by one. */
  function MovedUp<T>(xs: seq<T>, pos: nat, n: nat): (r: seq<T>)
    requires pos <= n < |xs|
    ensures |r| == |xs|
  {
    xs[..pos + 1] + xs[pos..n] + xs[n + 1..]
  }

  /** memmove of the slots from pos + 1 to n down by one. */
  function MovedDown<T>(xs: seq<T>, pos: nat, n: nat): (r: seq<T>)
    requires pos < n <= |xs|
    ensures |r| == |xs|
  {
    xs[..pos] + xs[pos + 1..n] + xs[n - 1..]
  }

  lemma MovedUpInserts<T>(xs: seq<T>, pos: nat, n: nat, x: T)
    requires pos <= n < |xs|
    ensures MovedUp(xs, pos, n)[pos := x][..n + 1] == Inserted(xs[..n], pos, x)
    ensures var r := MovedUp(xs, pos, n)[pos := x]; r[..pos] + r[pos + 1..n + 1] == xs[..n]
  {
  }

  lemma MovedDownRemoves<T>(xs: seq<T>, pos: nat, n: nat)
    requires pos < n <= |xs|
    ensures MovedDown(xs, pos, n)[..n - 1] == Removed(xs[..n], pos)
  {
  }

  /** Storing at pos after the slots from pos on moved up by one inserts the entry there. */
  lemma StoresAtPos(was: Image, now: Image, slot: seq<Slot>, slot': seq<Slot>, n: nat, pos: nat, e: Entry, stored: Key)
    requires was.Ok() && pos <= n < |slot| && was.slots == slot[..n] && was.dataOffset <= |was.heap|
    requires e.key == was.Prefix() + stored && |was.entries| == n
    requires now == Image(was.isLeaf, now.spaceUsed, now.dataOffset, was.lowerFence, was.upperFence, was.prefixLength,
                          now.slots, now.heap, was.lower, was.upper, Inserted(was.entries, pos, e))
    requires Stores(MovedUp(slot, pos, n), was.heap, was.dataOffset, was.spaceUsed,
                    slot', now.heap, now.dataOffset, now.spaceUsed, pos, stored, e.payload)
    requires now.slots == slot'[..n + 1]
    requires sizes.header + SlotBytes(n + 1) <= now.dataOffset
    ensures now.Ok()
  {
    Basics(was);
    MovedUpInserts(slot, pos, n, slot'[pos]);
    assert e.key[|was.Prefix()|..] == stored;
    StoredIntoOk(was, now, pos, e);
  }

  // ---- removing ----

  lemma RemovedSlots(was: Image, now: Image, pos: nat)
    requires was.Ok() && pos < |was.slots| && |was.slots| == |was.entries|
    requires now == was.(slots := Removed(was.slots, pos), entries := Removed(was.entries, pos), spaceUsed := now.spaceUsed)
    ensures now.Keeps(SlotsInPage) && now.Keeps(RangesDisjoint)
  {
    assert was.Keeps(SlotsInPage) && was.Keeps(RangesDisjoint);
    var r, q := now.slots, now.entries;
    forall i | 0 <= i < |r|
      ensures SlotHoldsAt(was.heap, was.dataOffset, was.Prefix(), r, q, i)
      ensures FenceApartAt(was.lowerFence, r, i) && FenceApartAt(was.upperFence, r, i)
    {
      var i' := if i < pos then i else i + 1;
      assert SlotHoldsAt(was.heap, was.dataOffset, was.Prefix(), was.slots, was.entries, i');
      assert FenceApartAt(was.lowerFence, was.slots, i') && FenceApartAt(was.upperFence, was.slots, i');
    }
    forall i, j | 0 <= i < j < |r|
      ensures ApartAt(r, i, j)
    {
      assert ApartAt(was.slots, if i < pos then i else i + 1, if j < pos then j else j + 1);
    }
  }

  /** Dropping a slot keeps the layout; its bytes stay behind as garbage that spaceUsed no longer counts. */
  lemma RemovedOk(was: Image, now: Image, pos: nat)
    requires was.Ok() && pos < |was.slots| && |was.slots| == |was.entries|
    requires now == was.(slots := Removed(was.slots, pos), entries := Removed(was.entries, pos), spaceUsed := now.spaceUsed)
    requires now.spaceUsed == was.spaceUsed - was.slots[pos].keyLen - was.slots[pos].payloadLen
    ensures now.Ok()
  {
    Basics(was);
    SlotAt(was, pos);
    RemovedSlots(was, now, pos);
    StoredSizeRemove(was.entries, pos, was.prefixLength);
    assert was.Keeps(FencesInPage) && was.Keeps(SharedPrefix) && was.Keeps(SpaceCounted) && was.Keeps(SpaceBounded) && was.Keeps(SlotsBeforeData);
    SlotBytesMonotone(|now.slots|, |was.slots|);
    forall c: Clause ensures now.Keeps(c) {}
  }

  /** All keys of a page start with its prefix. */
  lemma EntriesStartWithPrefix(im: Image)
    requires im.Ok()
    ensures AllStartWith(im.entries, im.Prefix())
  {
    Basics(im);
    forall i | 0 <= i < |im.entries| ensures StartsWith(im.entries[i], im.Prefix()) {
      SlotAt(im, i);
    }
  }

  lemma EntryFits(im: Image, i: nat)
    requires im.Ok() && i < |im.slots|
    ensures im.slots[i].keyLen + im.slots[i].payloadLen <= im.spaceUsed
  {
    Basics(im);
    SlotAt(im, i);
    assert im.Keeps(SpaceCounted);
    EntriesStartWithPrefix(im);
    assert forall i | 0 <= i < |im.entries| :: StartsWith(im.entries[i], im.Prefix());
    StoredSizeRemove(im.entries, i, im.prefixLength);
    StoredSizeNonNegative(Removed(im.entries, i), im.prefixLength);
  }

  lemma FencesFit(im: Image)
    requires im.Ok()
    ensures |im.lower| + |im.upper| <= im.spaceUsed
    ensures sizes.header + SlotBytes(|im.entries|) + |im.lower| + |im.upper| <= PageSize(im.isLeaf)
  {
    Basics(im);
    assert im.Keeps(SpaceCounted);
    EntriesStartWithPrefix(im);
    assert forall i | 0 <= i < |im.entries| :: StartsWith(im.entries[i], im.Prefix());
    StoredSizeNonNegative(im.entries, im.prefixLength);
  }

  // ---- room ----

  ghost predicate IsSizeFrom(es: seq<Entry>, i: nat, prefix: nat, size: int)
    requires i <= |es|
  {
    size == StoredSize(es[i..], prefix)
  }

  /** dataOffset leaves room for that many slots and for the keys and payloads of the entries from i on. */
  ghost predicate RoomFor(es: seq<Entry>, i: nat, prefix: nat, slots: nat, dataOffset: int)
    requires i <= |es|
  {
    forall size | IsSizeFrom(es, i, prefix, size) :: sizes.header + SlotBytes(slots) + size <= dataOffset
  }

  lemma RoomForIs(es: seq<Entry>, i: nat, prefix: nat, slots: nat, dataOffset: int)
    requires i <= |es|
    ensures RoomFor(es, i, prefix, slots, dataOffset)
       <==> sizes.header + SlotBytes(slots) + StoredSize(es[i..], prefix) <= dataOffset
  {
    assert IsSizeFrom(es, i, prefix, StoredSize(es[i..], prefix));
  }

  lemma RoomForAll(es: seq<Entry>, prefix: nat, slots: nat, dataOffset: int)
    ensures RoomFor(es, 0, prefix, slots, dataOffset) <==> sizes.header + SlotBytes(slots) + StoredSize(es, prefix) <= dataOffset
  {
    RoomForIs(es, 0, prefix, slots, dataOffset);
    assert es[0..] == es;
  }

  /** Every key starts with prefix. */
  ghost predicate AllStartWith(es: seq<Entry>, prefix: Key) {
    forall i | 0 <= i < |es| :: StartsWith(es[i], prefix)
  }

  ghost predicate StartsWith(e: Entry, prefix: Key) {
    prefix <= e.key
  }

  /** Room for all that is left to copy is room for the next entry and its slot, and then for the rest. */
  lemma RoomForNext(src: seq<Entry>, i: nat, prefix: Key, dataOffset: nat, n: nat, isLeaf: bool)
    requires i < |src| && AllStartWith(src, prefix)
    requires RoomFor(src, i, |prefix|, n + |src|, dataOffset) && dataOffset <= PageSize(isLeaf)
    ensures prefix <= src[i].key
    ensures var space := |src[i].key| - |prefix| + |src[i].payload|;
      sizes.header + SlotBytes(n + i + 1) + space <= dataOffset
      && RoomFor(src, i + 1, |prefix|, n + |src|, dataOffset - space)
    ensures n + i < SlotCapacity(isLeaf)
  {
    var p := |prefix|;
    assert forall j | 0 <= j < |src| :: StartsWith(src[j], prefix);
    RoomForIs(src, i, p, n + |src|, dataOffset);
    StoredSizeFirst(src, i, p);
    StoredSizeNonNegative(src[i + 1..], p);
    SlotBytesMonotone(n + i + 1, n + |src|);
    SlotFits(isLeaf, n + i + 1);
    RoomForIs(src, i + 1, p, n + |src|, dataOffset - (|src[i].key| - p + |src[i].payload|));
  }

  // ---- copying ----

  ghost predicate RangeAt(all: seq<Entry>, from: nat, src: seq<Entry>, i: nat)
    requires i < |src|
  {
    from + i < |all| && all[from + i] == src[i]
  }

  /** all holds src from from on. */
  ghost predicate HasRange(all: seq<Entry>, from: nat, src: seq<Entry>) {
    forall i | 0 <= i < |src| :: RangeAt(all, from, src, i)
  }

  lemma SliceIsRange(all: seq<Entry>, from: nat, n: nat)
    requires from + n <= |all|
    ensures HasRange(all, from, all[from..from + n])
  {
    var src := all[from..from + n];
    forall i | 0 <= i < |src| ensures RangeAt(all, from, src, i) {}
  }

  /** A page's contents fit a fresh page with the same fences. */
  lemma RoomToRebuild(im: Image)
    requires im.Ok()
    ensures |im.slots| == |im.entries|
    ensures sizes.header + |im.lower| + |im.upper| <= PageSize(im.isLeaf)
    ensures RoomFor(im.entries, 0, CommonPrefix(im.lower, im.upper), |im.entries|, PageSize(im.isLeaf) - |im.lower| - |im.upper|)
    ensures AllStartWith(im.entries, FencePrefix(im.lower, im.upper)) && HasRange(im.entries, 0, im.entries)
  {
    Basics(im);
    FencesFit(im);
    PrefixIsShared(im);
    EntriesStartWithPrefix(im);
    RoomToRefill(im);
    assert im.entries[0..|im.entries|] == im.entries;
    SliceIsRange(im.entries, 0, |im.entries|);
  }

  lemma RoomToRefill(im: Image)
    requires im.Ok()
    ensures RoomFor(im.entries, 0, im.prefixLength, |im.entries|, PageSize(im.isLeaf) - |im.lower| - |im.upper|)
  {
    Basics(im);
    assert im.Keeps(SpaceCounted);
    assert im.entries[0..] == im.entries;
    RoomForIs(im.entries, 0, im.prefixLength, |im.entries|, PageSize(im.isLeaf) - |im.lower| - |im.upper|);
  }
}
