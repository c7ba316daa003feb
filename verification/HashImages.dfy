/** A hash page's memory as a value, its layout invariant, and what each change of it keeps. */
module HashImages {
  import opened Hiding
  import opened Bytes
  import opened Layout
  import opened Nodes
  import opened Images

  datatype HashSlot = HashSlot(offset: nat, keyLen: nat, payloadLen: nat)

  // ---- geometry ----

  datatype HashGeometry = HashGeometry(header: nat, slot: nat)

  /** Header and slot sizes of hash pages. */
  type HashSizes = h: HashGeometry | 0 < h.slot && 4 * h.header <= sizes.leaf && h.slot <= sizes.leaf - h.header
    witness HashGeometry(0, 1)

  const hashing: HashSizes

  /** Bytes of the first n slots. */
  function HashSlotBytes(n: nat): nat {
    if n == 0 then 0 else HashSlotBytes(n - 1) + hashing.slot
  }

  lemma {:induction false} HashSlotBytesIs(n: nat)
    ensures HashSlotBytes(n) == hashing.slot * n
  {
    if n > 0 {
      HashSlotBytesIs(n - 1);
      assert hashing.slot * n == hashing.slot * (n - 1) + hashing.slot;
    }
  }

  lemma {:induction false} HashSlotBytesMonotone(m: nat, n: nat)
    requires m <= n
    ensures HashSlotBytes(m) <= HashSlotBytes(n) && n <= HashSlotBytes(n)
    decreases n
  {
    if m < n {
      HashSlotBytesMonotone(m, n - 1);
    } else if n > 0 {
      HashSlotBytesMonotone(n - 1, n - 1);
    }
  }

  function HashSlotCapacity(): nat {
    (sizes.leaf - hashing.header) / hashing.slot
  }

  lemma HashSlotFits(n: nat)
    requires hashing.header + HashSlotBytes(n) <= sizes.leaf
    ensures n <= HashSlotCapacity()
  {
    HashSlotBytesIs(n);
    DivideBound(sizes.leaf - hashing.header, hashing.slot, n);
  }

  // ---- hashes ----

  datatype Hasher = Hasher(hash: Key -> Byte)

  type AnyHasher = h: Hasher | true witness Hasher((k: Key) => 0)

  /** Any function from keys to bytes. */
  const hasher: AnyHasher

  /** HashNode::compute_hash of the bytes a page stores for a key. */
  function ComputeHash(stored: Key): Byte {
    (hasher.hash)(stored)
  }

  // ---- images ----

  /** heap holds bytes at offset. */
  ghost predicate BytesAt(heap: seq<Byte>, offset: nat, bytes: seq<Byte>) {
    offset + |bytes| <= |heap| && forall i | 0 <= i < |bytes| :: heap[offset + i] == bytes[i]
  }

  lemma BytesAtIs(heap: seq<Byte>, offset: nat, bytes: seq<Byte>)
    ensures BytesAt(heap, offset, bytes) <==> offset + |bytes| <= |heap| && heap[offset..offset + |bytes|] == bytes
  {
    if offset + |bytes| <= |heap| && heap[offset..offset + |bytes|] == bytes {
      forall i | 0 <= i < |bytes| ensures heap[offset + i] == bytes[i] {
        assert heap[offset..offset + |bytes|][i] == heap[offset + i];
      }
    }
  }

  /** The two heaps hold the same bytes from lo to hi. */
  ghost predicate SameBytes(heap: seq<Byte>, heap': seq<Byte>, lo: int, hi: int) {
    |heap| == |heap'| && forall i | lo <= i < hi && 0 <= i < |heap| :: heap'[i] == heap[i]
  }

  lemma BytesAtKept(heap: seq<Byte>, heap': seq<Byte>, offset: nat, bytes: seq<Byte>)
    requires BytesAt(heap, offset, bytes) && SameBytes(heap, heap', offset, offset + |bytes|)
    ensures BytesAt(heap', offset, bytes)
  {
  }

  lemma WriteIs(heap: seq<Byte>, offset: nat, bytes: seq<Byte>)
    requires offset + |bytes| <= |heap|
    ensures var r := Write(heap, offset, bytes);
      BytesAt(r, offset, bytes) && SameBytes(heap, r, 0, offset) && SameBytes(heap, r, offset + |bytes|, |heap|)
  {
    BytesAtIs(Write(heap, offset, bytes), offset, bytes);
  }

  lemma BytesAtParts(heap: seq<Byte>, offset: nat, a: seq<Byte>, b: seq<Byte>)
    requires BytesAt(heap, offset, a + b)
    ensures BytesAt(heap, offset, a) && BytesAt(heap, offset + |a|, b)
  {
    forall i | 0 <= i < |a| ensures heap[offset + i] == a[i] { assert heap[offset + i] == (a + b)[i]; }
    forall i | 0 <= i < |b| ensures heap[offset + |a| + i] == b[i] {
      var j := |a| + i;
      assert heap[offset + j] == (a + b)[j];
    }
  }

  datatype HashImage = HashImage(
    spaceUsed: nat, dataOffset: nat, prefixLength: nat, hashCapacity: nat, hashOffset: nat,
    slots: seq<HashSlot>, heap: seq<Byte>, lower: Key, upper: Key, entries: seq<Entry>)
  {
    ghost function Prefix(): Key {
      FencePrefix(lower, upper)
    }

    /** Where the fences start: the lower is at the very end of the page, the upper just before it. */
    function FenceStart(): int {
      sizes.leaf - |lower| - |upper|
    }

    ghost predicate FencesOk() {
      && |heap| == sizes.leaf && FenceStart() >= 0
      && BytesAt(heap, sizes.leaf - |lower|, lower) && BytesAt(heap, FenceStart(), upper)
      && prefixLength == CommonPrefix(lower, upper)
    }

    /** Slots, data, hash array and fences follow each other; garbage may only be inside the data. */
    ghost predicate RegionsOk() {
      && hashing.header + HashSlotBytes(|slots|) <= dataOffset <= hashOffset
      && hashOffset + hashCapacity <= FenceStart()
      && dataOffset + spaceUsed + hashCapacity <= sizes.leaf
    }

    /** The slot's key and payload bytes are those of the entry, between dataOffset and the fences and
        outside the hash array. */
    ghost predicate Held(s: HashSlot, e: Entry) {
      && Prefix() <= e.key && s.keyLen == |e.key| - |Prefix()| && s.payloadLen == |e.payload|
      && dataOffset <= s.offset && s.offset + s.keyLen + s.payloadLen <= FenceStart()
      && BytesAt(heap, s.offset, e.key[|Prefix()|..]) && BytesAt(heap, s.offset + s.keyLen, e.payload)
      && (s.offset + s.keyLen + s.payloadLen <= hashOffset || hashOffset + hashCapacity <= s.offset)
    }

    ghost predicate HeldAt(i: nat)
      requires i < |slots| && i < |entries|
    {
      Held(slots[i], entries[i])
    }

    ghost predicate SlotsOk() {
      |slots| == |entries| && forall i | 0 <= i < |slots| :: HeldAt(i)
    }

    ghost predicate SlotsApart() {
      forall i, j | 0 <= i < j < |slots| :: HashApartAt(slots, i, j)
    }

    ghost predicate SpaceOk() {
      spaceUsed == |lower| + |upper| + StoredSize(entries, prefixLength)
    }

    ghost predicate HashAt(i: nat)
      requires i < |entries|
    {
      && prefixLength <= |entries[i].key| && hashOffset + i < |heap|
      && heap[hashOffset + i] == ComputeHash(entries[i].key[prefixLength..])
    }

    /** There is a hash cell for every slot and it holds the hash of what the slot stores. */
    ghost predicate HashesOk() {
      |slots| == |entries| <= hashCapacity && forall i | 0 <= i < |entries| :: HashAt(i)
    }

    ghost predicate Stored() {
      FencesOk() && RegionsOk() && SlotsOk() && SlotsApart() && SpaceOk() && |entries| <= hashCapacity
    }

    /** The layout of a page in use. Unfolded only where Complete is mentioned. */
    ghost predicate Ok() {
      forall u: Unfold :: Complete(u)
    }

    ghost predicate Complete(u: Unfold) {
      Stored() && HashesOk()
    }
  }

  lemma OkIs(im: HashImage)
    ensures im.Ok() <==> im.Stored() && im.HashesOk()
  {
    assert im.Ok() ==> im.Complete(Unfold);
  }

  ghost predicate HashApartAt(slots: seq<HashSlot>, i: nat, j: nat)
    requires i < |slots| && j < |slots|
  {
    Apart(slots[i].offset, slots[i].keyLen + slots[i].payloadLen, slots[j].offset, slots[j].keyLen + slots[j].payloadLen)
  }

  lemma HashPrefix(im: HashImage)
    requires im.FencesOk()
    ensures |im.Prefix()| == im.prefixLength && im.prefixLength <= |im.lower| && im.prefixLength <= |im.upper|
  {
  }

  /** Bytes outside the hash array and at or above dataOffset stay, so what slots and fences hold stays. */
  lemma HeldKept(was: HashImage, now: HashImage, s: HashSlot, e: Entry)
    requires was.Held(s, e) && now.lower == was.lower && now.upper == was.upper
    requires now.dataOffset <= was.dataOffset
    requires SameBytes(was.heap, now.heap, s.offset, s.offset + s.keyLen + s.payloadLen)
    requires s.offset + s.keyLen + s.payloadLen <= now.hashOffset || now.hashOffset + now.hashCapacity <= s.offset
    ensures now.Held(s, e)
  {
    BytesAtKept(was.heap, now.heap, s.offset, e.key[|was.Prefix()|..]);
    BytesAtKept(was.heap, now.heap, s.offset + s.keyLen, e.payload);
  }

  lemma FencesKept(was: HashImage, now: HashImage)
    requires was.FencesOk() && now.lower == was.lower && now.upper == was.upper && now.prefixLength == was.prefixLength
    requires SameBytes(was.heap, now.heap, was.FenceStart(), sizes.leaf)
    ensures now.FencesOk()
  {
    BytesAtKept(was.heap, now.heap, sizes.leaf - |was.lower|, was.lower);
    BytesAtKept(was.heap, now.heap, was.FenceStart(), was.upper);
  }

  // ---- storing ----

  /** What storing an entry as the last slot does: its bytes go just below the data, its hash into the
      next cell, nothing else changes. */
  ghost predicate StoredLast(was: HashImage, now: HashImage, stored: Key, payload: seq<Byte>) {
    forall u: Unfold :: StoresLast(u, was, now, stored, payload)
  }

  ghost predicate StoresLast(u: Unfold, was: HashImage, now: HashImage, stored: Key, payload: seq<Byte>) {
    && now == was.(spaceUsed := now.spaceUsed, dataOffset := now.dataOffset, slots := now.slots, heap := now.heap, entries := now.entries)
    && now.dataOffset + |stored| + |payload| == was.dataOffset && now.spaceUsed == was.spaceUsed + |stored| + |payload|
    && now.slots == was.slots + [HashSlot(now.dataOffset, |stored|, |payload|)]
    && now.entries == was.entries + [Entry(was.Prefix() + stored, payload)]
    && BytesAt(now.heap, now.dataOffset, stored) && BytesAt(now.heap, now.dataOffset + |stored|, payload)
    && was.hashOffset + |was.slots| < |was.heap| == |now.heap|
    && SameBytes(was.heap, now.heap, was.dataOffset, was.hashOffset + |was.slots|)
    && SameBytes(was.heap, now.heap, was.hashOffset + |was.slots| + 1, sizes.leaf)
    && now.heap[was.hashOffset + |was.slots|] == ComputeHash(stored)
  }

  lemma StoredLastHeld(was: HashImage, now: HashImage, stored: Key, payload: seq<Byte>)
    requires was.Stored() && StoredLast(was, now, stored, payload) && |was.slots| < was.hashCapacity
    ensures now.SlotsOk()
  {
    assert StoresLast(Unfold, was, now, stored, payload);
    var n := |was.slots|;
    forall i | 0 <= i < n + 1 ensures now.HeldAt(i) {
      if i < n {
        assert was.HeldAt(i);
        HeldKept(was, now, was.slots[i], was.entries[i]);
      } else {
        assert now.entries[n].key[|was.Prefix()|..] == stored;
      }
    }
  }

  lemma StoredLastApart(was: HashImage, now: HashImage, stored: Key, payload: seq<Byte>)
    requires was.SlotsOk() && was.SlotsApart() && StoredLast(was, now, stored, payload)
    ensures now.SlotsApart()
  {
    assert StoresLast(Unfold, was, now, stored, payload);
    var n := |was.slots|;
    forall i, j | 0 <= i < j < n + 1 ensures HashApartAt(now.slots, i, j) {
      if j < n {
        assert HashApartAt(was.slots, i, j);
      } else {
        assert was.HeldAt(i);
      }
    }
  }

  lemma StoredLastSlots(was: HashImage, now: HashImage, stored: Key, payload: seq<Byte>)
    requires was.Stored() && StoredLast(was, now, stored, payload) && |was.slots| < was.hashCapacity
    ensures now.SlotsOk() && now.SlotsApart() && now.FencesOk()
  {
    StoredLastHeld(was, now, stored, payload);
    StoredLastApart(was, now, stored, payload);
    assert StoresLast(Unfold, was, now, stored, payload);
    FencesKept(was, now);
  }

  lemma StoredLastHashes(was: HashImage, now: HashImage, stored: Key, payload: seq<Byte>)
    requires was.Ok() && StoredLast(was, now, stored, payload) && |was.slots| < was.hashCapacity
    ensures now.HashesOk()
  {
    OkIs(was);
    assert StoresLast(Unfold, was, now, stored, payload);
    var n := |was.slots|;
    forall i | 0 <= i < n + 1 ensures now.HashAt(i) {
      if i < n {
        assert was.HashAt(i);
      } else {
        assert now.entries[n].key[was.prefixLength..] == stored;
      }
    }
  }

  /** With a free cell and room for slot and bytes, storing keeps the layout. */
  lemma StoredLastOk(was: HashImage, now: HashImage, stored: Key, payload: seq<Byte>)
    requires was.Ok() && StoredLast(was, now, stored, payload) && |was.slots| < was.hashCapacity
    requires hashing.header + HashSlotBytes(|was.slots| + 1) <= now.dataOffset
    ensures now.Ok()
  {
    OkIs(was);
    OkIs(now);
    assert StoresLast(Unfold, was, now, stored, payload);
    StoredLastSlots(was, now, stored, payload);
    StoredLastHashes(was, now, stored, payload);
    StoredSizeConcat(was.entries, [Entry(was.Prefix() + stored, payload)], was.prefixLength);
    StoredSizeOne(Entry(was.Prefix() + stored, payload), was.prefixLength);
  }

  // ---- removing ----

  /** Hash cell i is now what cell i + step was. */
  ghost predicate CellMoved(was: HashImage, now: HashImage, i: nat, step: nat) {
    && was.hashOffset + i + step < |was.heap| && now.hashOffset + i < |now.heap|
    && now.heap[now.hashOffset + i] == was.heap[was.hashOffset + i + step]
  }

  /** What removing slot pos does: slots and hash cells above it move down by one. */
  ghost predicate SlotRemoved(was: HashImage, now: HashImage, pos: nat) {
    && pos < |was.slots| == |was.entries|
    && now == was.(spaceUsed := now.spaceUsed, slots := Removed(was.slots, pos), entries := Removed(was.entries, pos), heap := now.heap)
    && now.spaceUsed + was.slots[pos].keyLen + was.slots[pos].payloadLen == was.spaceUsed
    && SameBytes(was.heap, now.heap, 0, was.hashOffset + pos)
    && SameBytes(was.heap, now.heap, was.hashOffset + |was.slots|, sizes.leaf)
    && was.hashOffset + |was.slots| <= |was.heap| == |now.heap|
    && forall i | pos <= i < |was.slots| - 1 :: CellMoved(was, now, i, 1)
  }

  lemma SlotRemovedHeld(was: HashImage, now: HashImage, pos: nat)
    requires was.SlotsOk() && was.FencesOk() && SlotRemoved(was, now, pos) && |was.entries| <= was.hashCapacity
    ensures now.SlotsOk()
  {
    forall i | 0 <= i < |now.slots| ensures now.HeldAt(i) {
      var i' := if i < pos then i else i + 1;
      assert was.HeldAt(i');
      HeldKept(was, now, was.slots[i'], was.entries[i']);
    }
  }

  lemma SlotRemovedSlots(was: HashImage, now: HashImage, pos: nat)
    requires was.Stored() && SlotRemoved(was, now, pos)
    ensures now.SlotsOk() && now.SlotsApart() && now.FencesOk()
  {
    FencesKept(was, now);
    SlotRemovedHeld(was, now, pos);
    forall i, j | 0 <= i < j < |now.slots| ensures HashApartAt(now.slots, i, j) {
      assert HashApartAt(was.slots, if i < pos then i else i + 1, if j < pos then j else j + 1);
    }
  }

  lemma SlotRemovedHashes(was: HashImage, now: HashImage, pos: nat)
    requires was.HashesOk() && SlotRemoved(was, now, pos)
    ensures now.HashesOk()
  {
    forall i | 0 <= i < |now.entries| ensures now.HashAt(i) {
      assert was.HashAt(if i < pos then i else i + 1);
      if i >= pos { assert CellMoved(was, now, i, 1); }
    }
  }

  lemma SlotRemovedOk(was: HashImage, now: HashImage, pos: nat)
    requires was.Ok() && SlotRemoved(was, now, pos)
    ensures now.Ok()
  {
    OkIs(was);
    SlotRemovedSlots(was, now, pos);
    SlotRemovedHashes(was, now, pos);
    SlotRemovedSpace(was, now, pos);
    OkIs(now);
  }

  lemma SlotRemovedSpace(was: HashImage, now: HashImage, pos: nat)
    requires was.Stored() && SlotRemoved(was, now, pos)
    ensures now.SpaceOk() && now.RegionsOk() && |now.entries| <= now.hashCapacity
  {
    HashPrefix(was);
    assert was.HeldAt(pos);
    StoredSizeRemove(was.entries, pos, was.prefixLength);
    HashSlotBytesMonotone(|now.slots|, |was.slots|);
  }

  // ---- a larger hash array ----

  /** What growing the hash array in place does: a new one just below the data gets a copy of the cells;
      the old one becomes garbage. */
  ghost predicate HashesMoved(was: HashImage, now: HashImage, capacity: nat) {
    && now == was.(dataOffset := now.dataOffset, hashCapacity := capacity, hashOffset := now.dataOffset, heap := now.heap)
    && now.dataOffset + capacity == was.dataOffset && |was.slots| <= capacity
    && SameBytes(was.heap, now.heap, was.dataOffset, sizes.leaf)
    && was.hashOffset + |was.slots| <= |was.heap| == |now.heap|
    && forall i | 0 <= i < |was.slots| :: CellMoved(was, now, i, 0)
  }

  lemma HashesMovedOk(was: HashImage, now: HashImage, capacity: nat)
    requires was.Ok() && HashesMoved(was, now, capacity)
    requires hashing.header + HashSlotBytes(|was.slots|) <= now.dataOffset
    ensures now.Ok()
  {
    OkIs(was);
    OkIs(now);
    FencesKept(was, now);
    forall i | 0 <= i < |was.slots| ensures now.HeldAt(i) && now.HashAt(i) {
      assert was.HeldAt(i) && was.HashAt(i) && CellMoved(was, now, i, 0);
      HeldKept(was, now, was.slots[i], was.entries[i]);
    }
    forall i, j | 0 <= i < j < |was.slots| ensures HashApartAt(now.slots, i, j) {
      assert HashApartAt(was.slots, i, j);
    }
  }

  // ---- exchanging slots ----

  function Swapped<T>(xs: seq<T>, i: nat): (r: seq<T>)
    requires i + 1 < |xs|
    ensures |r| == |xs|
    ensures forall k {:trigger r[k]} | 0 <= k < |r| :: r[k] == xs[if k == i then i + 1 else if k == i + 1 then i else k]
  {
    xs[i := xs[i + 1]][i + 1 := xs[i]]
  }

  lemma SwappedMultiset<T>(xs: seq<T>, i: nat)
    requires i + 1 < |xs|
    ensures multiset(Swapped(xs, i)) == multiset(xs)
  {
  }

  lemma StoredSizeSwap(es: seq<Entry>, i: nat, p: nat)
    requires i + 1 < |es|
    ensures StoredSize(Swapped(es, i), p) == StoredSize(es, p)
  {
    assert Swapped(es, i) == Inserted(Removed(es, i), i + 1, es[i]);
    StoredSizeRemove(es, i, p);
    StoredSizeInsert(Removed(es, i), i + 1, es[i], p);
  }

  /** Where the slot at i comes from. */
  function SwapSource(k: nat, i: nat): nat {
    if i == k then k + 1 else if i == k + 1 then k else i
  }

  lemma SwapApart(was: seq<HashSlot>, k: nat, i: nat, j: nat)
    requires k + 1 < |was| && i < j < |was| && forall a, b | 0 <= a < b < |was| :: HashApartAt(was, a, b)
    ensures HashApartAt(Swapped(was, k), i, j)
  {
    var i', j' := SwapSource(k, i), SwapSource(k, j);
    if i' < j' { assert HashApartAt(was, i', j'); } else { assert HashApartAt(was, j', i'); }
  }

  lemma SwapHeld(was: HashImage, now: HashImage, k: nat)
    requires was.SlotsOk() && k + 1 < |was.slots|
    requires now == was.(slots := Swapped(was.slots, k), entries := Swapped(was.entries, k))
    ensures now.SlotsOk()
  {
    forall i | 0 <= i < |now.slots| ensures now.HeldAt(i) {
      var i' := SwapSource(k, i);
      assert was.HeldAt(i');
      HeldKept(was, now, was.slots[i'], was.entries[i']);
    }
  }

  /** Exchanging two neighbouring slots keeps everything but the hash cells' order. */
  lemma SwapStored(was: HashImage, now: HashImage, k: nat)
    requires was.Stored() && k + 1 < |was.slots|
    requires now == was.(slots := Swapped(was.slots, k), entries := Swapped(was.entries, k))
    ensures now.Stored()
  {
    StoredSizeSwap(was.entries, k, was.prefixLength);
    SwapHeld(was, now, k);
    forall i, j | 0 <= i < j < |now.slots| ensures HashApartAt(now.slots, i, j) {
      SwapApart(was.slots, k, i, j);
    }
  }

  // ---- hash cells ----

  /** Only the hash cells differ, and now they match. */
  lemma RehashedOk(was: HashImage, now: HashImage)
    requires was.Stored() && now == was.(heap := now.heap)
    requires SameBytes(was.heap, now.heap, 0, was.hashOffset)
    requires SameBytes(was.heap, now.heap, was.hashOffset + |was.entries|, sizes.leaf)
    requires now.HashesOk()
    ensures now.Ok()
  {
    OkIs(now);
    FencesKept(was, now);
    forall i | 0 <= i < |was.slots| ensures now.HeldAt(i) {
      assert was.HeldAt(i);
      HeldKept(was, now, was.slots[i], was.entries[i]);
    }
    forall i, j | 0 <= i < j < |was.slots| ensures HashApartAt(now.slots, i, j) {
      assert HashApartAt(was.slots, i, j);
    }
  }

  // ---- space ----

  /** A page whose entries, one hash byte each, slots and fences fit. */
  lemma EntriesFit(im: HashImage)
    requires im.Stored()
    ensures im.spaceUsed + HashSlotBytes(|im.entries|) + |im.entries| + hashing.header <= sizes.leaf
    ensures im.spaceUsed >= |im.lower| + |im.upper|
  {
    HashKeysHavePrefix(im);
    StoredSizeNonNegative(im.entries, im.prefixLength);
  }

  lemma HashKeysHavePrefix(im: HashImage)
    requires im.FencesOk() && im.SlotsOk()
    ensures AllStartWith(im.entries, im.Prefix())
    ensures forall i | 0 <= i < |im.entries| :: im.prefixLength <= |im.entries[i].key|
  {
    forall i | 0 <= i < |im.entries|
      ensures StartsWith(im.entries[i], im.Prefix()) && im.prefixLength <= |im.entries[i].key|
    {
      assert im.HeldAt(i);
    }
  }

  /** available * count / (entrySpaceUse + count): at least count cells when a hash byte per entry fits, and
      never more than what the entries leave free. */
  lemma CapacityBounds(available: nat, entrySpaceUse: nat, count: nat)
    requires count > 0 && entrySpaceUse + count <= available
    ensures var capacity := available * count / (entrySpaceUse + count);
      count <= capacity && capacity + entrySpaceUse <= available
  {
    var d := entrySpaceUse + count;
    var capacity := available * count / d;
    MulMonotone(count, d, available);
    assert count * d <= available * count;
    QuotientAtLeast(available * count, d, count);
    // capacity * d <= available * count == available * d - available * entrySpaceUse
    assert capacity * d <= available * count;
    assert available * d == available * entrySpaceUse + available * count;
    MulMonotone(entrySpaceUse, d, available);
    assert entrySpaceUse * d <= available * entrySpaceUse;
    assert (capacity + entrySpaceUse) * d == capacity * d + entrySpaceUse * d;
    CancelFactor(capacity + entrySpaceUse, available, d);
  }

  lemma QuotientAtLeast(x: nat, d: nat, q: nat)
    requires d > 0 && q * d <= x
    ensures q <= x / d
  {
    assert d * q == q * d;
    DivideBound(x, d, q);
  }

  lemma CancelFactor(a: nat, b: nat, d: nat)
    requires d > 0 && a * d <= b * d
    ensures a <= b
  {
    if a > b {
      StrictlyGrows(b, a, d);
    }
  }

  lemma StrictlyGrows(a: nat, b: nat, d: nat)
    requires a < b && d > 0
    ensures a * d < b * d
  {
    MulMonotone(d, a + 1, b);
    assert d * (a + 1) == d * a + d;
    assert d * a == a * d && d * b == b * d;
  }
}
