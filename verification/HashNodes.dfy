/** HashNode: a leaf whose slots are found by one-byte hashes and sorted only when order is needed. */
module HashNodes {
  import opened Hiding
  import opened Bytes
  import opened Layout
  import opened Nodes
  import opened Images
  import opened Separators
  import opened Pages
  import opened HashProbes
  import opened HashImages

  // ---- order among slots ----

  ghost predicate SortedRange(es: seq<Entry>, lo: nat, hi: nat)
    requires hi <= |es|
  {
    forall i, j | lo <= i < j < hi :: InOrder(es, i, j)
  }

  ghost predicate KeysDiffer(es: seq<Entry>, i: nat, j: nat)
    requires i < |es| && j < |es|
  {
    es[i].key != es[j].key
  }

  ghost predicate Distinct(es: seq<Entry>) {
    forall i, j | 0 <= i < j < |es| :: KeysDiffer(es, i, j)
  }

  ghost predicate Absent(es: seq<Entry>, key: Key) {
    forall i | 0 <= i < |es| :: es[i].key != key
  }

  /** std::lexicographical_compare */
  function LexLess(a: Key, b: Key): (r: bool)
    ensures r <==> Less(a, b)
  {
    LessTotal(a, b);
    var c := Memcmp(a, b);
    c < 0 || (c == 0 && |a| < |b|)
  }

  function StoredKey(heap: seq<Byte>, s: HashSlot): Key
    requires s.offset + s.keyLen <= |heap|
  {
    heap[s.offset..s.offset + s.keyLen]
  }

  function StoredPayload(heap: seq<Byte>, s: HashSlot): seq<Byte>
    requires s.offset + s.keyLen + s.payloadLen <= |heap|
  {
    heap[s.offset + s.keyLen..s.offset + s.keyLen + s.payloadLen]
  }

  ghost predicate ReadAs(heap: seq<Byte>, slots: seq<HashSlot>, keys: seq<Key>, i: nat) {
    && i < |slots| && i < |keys|
    && slots[i].offset + slots[i].keyLen <= |heap| && keys[i] == StoredKey(heap, slots[i])
  }

  /** A slot's bytes are its entry's stored key and payload. */
  lemma SlotReads(im: HashImage, i: nat)
    requires im.FencesOk() && im.SlotsOk() && i < |im.slots|
    ensures var s := im.slots[i]; var e := im.entries[i];
      && s.offset + s.keyLen + s.payloadLen <= |im.heap| && |im.Prefix()| == im.prefixLength <= |e.key|
      && StoredKey(im.heap, s) == e.key[im.prefixLength..] && StoredPayload(im.heap, s) == e.payload
      && e.key == im.Prefix() + StoredKey(im.heap, s)
  {
    assert im.HeldAt(i);
    var s, e := im.slots[i], im.entries[i];
    BytesAtIs(im.heap, s.offset, e.key[im.prefixLength..]);
    BytesAtIs(im.heap, s.offset + s.keyLen, e.payload);
    assert e.key == im.Prefix() + e.key[im.prefixLength..];
  }

  /** Comparing stored bytes compares full keys. */
  lemma StoredCompare(im: HashImage, i: nat, j: nat)
    requires im.FencesOk() && im.SlotsOk() && i < |im.slots| && j < |im.slots|
    ensures im.slots[i].offset + im.slots[i].keyLen <= |im.heap| && im.slots[j].offset + im.slots[j].keyLen <= |im.heap|
    ensures Less(StoredKey(im.heap, im.slots[i]), StoredKey(im.heap, im.slots[j])) <==> InOrder(im.entries, i, j)
  {
    SlotReads(im, i);
    SlotReads(im, j);
    PrefixShift(im.Prefix(), StoredKey(im.heap, im.slots[i]), StoredKey(im.heap, im.slots[j]));
  }

  // ---- sorting ----

  /** Slots and entries changed places together, those outside lo..hi did not. */
  ghost predicate Reordered(was: HashImage, now: HashImage, lo: nat, hi: nat) {
    && now == was.(slots := now.slots, entries := now.entries) && now.Stored() && Distinct(now.entries)
    && multiset(now.entries) == multiset(was.entries) && |now.entries| == |was.entries|
    && forall i | 0 <= i < |was.entries| && !(lo <= i < hi) :: now.entries[i] == was.entries[i]
  }

  lemma ReorderedMore(a: HashImage, b: HashImage, c: HashImage, lo: nat, hi: nat)
    requires Reordered(a, b, lo, hi) && Reordered(b, c, lo, hi)
    ensures Reordered(a, c, lo, hi)
  {
  }

  lemma SwapReorders(was: HashImage, now: HashImage, k: nat, lo: nat, hi: nat)
    requires was.Stored() && Distinct(was.entries) && lo <= k && k + 1 < hi <= |was.slots|
    requires now == was.(slots := Swapped(was.slots, k), entries := Swapped(was.entries, k))
    ensures Reordered(was, now, lo, hi)
  {
    SwapStored(was, now, k);
    SwappedMultiset(was.entries, k);
    forall i, j | 0 <= i < j < |now.entries| ensures KeysDiffer(now.entries, i, j) {
      var i' := if i == k then k + 1 else if i == k + 1 then k else i;
      var j' := if j == k then k + 1 else if j == k + 1 then k else j;
      if i' < j' { assert KeysDiffer(was.entries, i', j'); } else { assert KeysDiffer(was.entries, j', i'); }
    }
  }

  /** Sorted from lo to j except that the entry at k may be too large a step down for those before it. */
  ghost predicate SortedBut(es: seq<Entry>, lo: nat, j: nat, k: nat)
    requires j < |es|
  {
    forall a, b | lo <= a < b <= j && b != k :: InOrder(es, a, b)
  }

  lemma SwapSinks(es: seq<Entry>, lo: nat, j: nat, k: nat)
    requires lo < k <= j < |es| && SortedBut(es, lo, j, k) && InOrder(es, k, k - 1)
    ensures SortedBut(Swapped(es, k - 1), lo, j, k - 1)
  {
    var r := Swapped(es, k - 1);
    forall a, b | lo <= a < b <= j && b != k - 1 ensures InOrder(r, a, b) {
      if !(a == k - 1 && b == k) {
        assert InOrder(es, if a == k - 1 then k else if a == k then k - 1 else a, if b == k then k - 1 else b);
      }
    }
  }

  lemma SunkIsSorted(es: seq<Entry>, lo: nat, j: nat, k: nat)
    requires lo <= k <= j < |es| && SortedBut(es, lo, j, k) && Distinct(es)
    requires k == lo || !InOrder(es, k, k - 1)
    ensures SortedRange(es, lo, j + 1)
  {
    forall a, b | lo <= a < b < j + 1 ensures InOrder(es, a, b) {
      if b == k {
        assert KeysDiffer(es, k - 1, k);
        LessTotal(es[k - 1].key, es[k].key);
        if a < k - 1 {
          assert InOrder(es, a, k - 1);
          LessTrans(es[a].key, es[k - 1].key, es[k].key);
        }
      }
    }
  }

  /** Moves the slot at j down to its place among the sorted slots from lo on. */
  method SinkSlot(heap: seq<Byte>, slots: seq<HashSlot>, ghost was: HashImage, lo: nat, j: nat, ghost hi: nat)
    returns (slots': seq<HashSlot>, ghost now: HashImage)
    requires was.Stored() && was.heap == heap && was.slots == slots && Distinct(was.entries)
    requires lo <= j < hi <= |slots| && SortedRange(was.entries, lo, j)
    ensures Reordered(was, now, lo, hi) && now.slots == slots' && SortedRange(now.entries, lo, j + 1)
  {
    slots', now := slots, was;
    var k := j;
    while k > lo
      invariant lo <= k <= j && now.slots == slots' && now.heap == heap && Reordered(was, now, lo, hi)
      invariant SortedBut(now.entries, lo, j, k)
    {
      StoredCompare(now, k, k - 1);
      if !LexLess(StoredKey(heap, slots'[k]), StoredKey(heap, slots'[k - 1])) {
        break;
      }
      SwapSinks(now.entries, lo, j, k);
      ghost var next := now.(slots := Swapped(now.slots, k - 1), entries := Swapped(now.entries, k - 1));
      SwapReorders(now, next, k - 1, lo, hi);
      ReorderedMore(was, now, next, lo, hi);
      slots', now := Swapped(slots', k - 1), next;
      k := k - 1;
    }
    SunkIsSorted(now.entries, lo, j, k);
  }

  /** Sorts the slots from lo to hi, of which those before from already are: with from == lo this is the sort
      of the tail, with a sorted tail the merge of the two parts. */
  method SortSlots(heap: seq<Byte>, slots: seq<HashSlot>, ghost was: HashImage, lo: nat, from: nat, hi: nat)
    returns (slots': seq<HashSlot>, ghost now: HashImage)
    requires was.Stored() && was.heap == heap && was.slots == slots && Distinct(was.entries)
    requires lo <= from <= hi <= |slots| && SortedRange(was.entries, lo, from)
    ensures Reordered(was, now, lo, hi) && now.slots == slots' && SortedRange(now.entries, lo, hi)
  {
    slots', now := slots, was;
    for j: nat := from to hi
      invariant now.slots == slots' && now.heap == heap && Reordered(was, now, lo, hi)
      invariant SortedRange(now.entries, lo, j)
    {
      ghost var next;
      slots', next := SinkSlot(heap, slots', now, lo, j, hi);
      ReorderedMore(was, now, next, lo, hi);
      now := next;
    }
  }

  // ---- hash cells ----

  /** Cells up to i match; nothing outside the cells changed. */
  ghost predicate RehashedTo(was: HashImage, heap: seq<Byte>, i: nat) {
    var now := was.(heap := heap);
    && i <= |was.entries|
    && SameBytes(was.heap, heap, 0, was.hashOffset) && SameBytes(was.heap, heap, was.hashOffset + |was.entries|, sizes.leaf)
    && forall j | 0 <= j < i :: now.HashAt(j)
  }

  /** A key's bytes are outside the hash array. */
  lemma RehashReads(was: HashImage, heap: seq<Byte>, i: nat)
    requires was.Stored() && RehashedTo(was, heap, i) && i < |was.slots|
    ensures was.slots[i].offset + was.slots[i].keyLen <= |heap| && was.hashOffset + i < |heap|
    ensures RehashedTo(was, heap[was.hashOffset + i := ComputeHash(StoredKey(heap, was.slots[i]))], i + 1)
  {
    var now := was.(heap := heap);
    assert was.HeldAt(i);
    HeldKept(was, now, was.slots[i], was.entries[i]);
    BytesAtIs(heap, was.slots[i].offset, was.entries[i].key[was.prefixLength..]);
    var heap' := heap[was.hashOffset + i := ComputeHash(StoredKey(heap, was.slots[i]))];
    var next := was.(heap := heap');
    forall j | 0 <= j < i + 1 ensures next.HashAt(j) {
      if j < i { assert now.HashAt(j); }
    }
  }

  /** updateHash of every slot. */
  method UpdateHashes(heap: seq<Byte>, hashOffset: nat, slots: seq<HashSlot>, count: nat, ghost was: HashImage) returns (heap': seq<Byte>)
    requires was.Stored() && was.heap == heap && was.hashOffset == hashOffset && count <= |slots| && was.slots == slots[..count]
    ensures was.(heap := heap').Ok()
  {
    heap' := heap;
    for i: nat := 0 to count
      invariant RehashedTo(was, heap', i)
    {
      RehashReads(was, heap', i);
      assert was.slots[i] == slots[i];
      heap' := heap'[hashOffset + i := ComputeHash(StoredKey(heap', slots[i]))];
    }
    RehashedOk(was, was.(heap := heap'));
  }

  // ---- filling ----

  ghost predicate EntryIs(es: seq<Entry>, all: seq<Entry>, i: nat)
    requires i < |es| && i < |all|
  {
    es[i] == all[i]
  }

  /** es is the first k entries of all. */
  ghost predicate FirstOf(es: seq<Entry>, all: seq<Entry>, k: nat) {
    k == |es| <= |all| && forall i | 0 <= i < k :: EntryIs(es, all, i)
  }

  lemma FirstOfAll(es: seq<Entry>, all: seq<Entry>)
    requires FirstOf(es, all, |all|)
    ensures es == all
  {
    forall i | 0 <= i < |es| ensures es[i] == all[i] { assert EntryIs(es, all, i); }
  }

  lemma FirstOfNext(es: seq<Entry>, all: seq<Entry>, k: nat, e: Entry)
    requires FirstOf(es, all, k) && k < |all| && all[k] == e
    ensures FirstOf(es + [e], all, k + 1)
  {
    forall i | 0 <= i < k + 1 ensures EntryIs(es + [e], all, i) {
      if i < k { assert EntryIs(es, all, i); }
    }
  }

  lemma {:induction false} FirstOfSize(es: seq<Entry>, all: seq<Entry>, p: nat, k: nat, n: nat)
    requires FirstOf(es, all, k) && n <= k
    ensures SizeUpTo(es, p, n) == SizeUpTo(all, p, n)
  {
    if n > 0 {
      assert EntryIs(es, all, n - 1);
      FirstOfSize(es, all, p, k, n - 1);
    }
  }

  lemma {:induction false} SizeUpToMonotone(es: seq<Entry>, p: nat, m: nat, n: nat)
    requires m <= n <= |es| && forall i | 0 <= i < |es| :: p <= |es[i].key|
    ensures SizeUpTo(es, p, m) <= SizeUpTo(es, p, n)
    decreases n
  {
    if m < n {
      SizeUpToMonotone(es, p, m, n - 1);
    }
  }

  /** Slots, a hash array of that capacity, fences and entries fit a page. */
  ghost predicate HashFits(lower: Key, upper: Key, capacity: nat, all: seq<Entry>) {
    && hashing.header + HashSlotBytes(|all|) + capacity + |lower| + |upper| + StoredSize(all, CommonPrefix(lower, upper)) <= sizes.leaf
    && |all| <= capacity && AllStartWith(all, FencePrefix(lower, upper))
  }

  /** A page under construction has the first k of all and no garbage. */
  ghost predicate FillingImage(im: HashImage, all: seq<Entry>, k: nat) {
    forall u: Unfold :: FillingNow(u, im, all, k)
  }

  ghost predicate FillingNow(u: Unfold, im: HashImage, all: seq<Entry>, k: nat) {
    && im.Ok() && FirstOf(im.entries, all, k) && HashFits(im.lower, im.upper, im.hashCapacity, all)
    && im.dataOffset + im.spaceUsed + im.hashCapacity == sizes.leaf
  }

  lemma FillingIs(im: HashImage, all: seq<Entry>, k: nat)
    requires FillingImage(im, all, k)
    ensures im.Ok() && FirstOf(im.entries, all, k) && |im.Prefix()| == im.prefixLength
    ensures im.dataOffset + im.spaceUsed + im.hashCapacity == sizes.leaf
  {
    assert FillingNow(Unfold, im, all, k);
    OkIs(im);
  }

  lemma FillRoom(im: HashImage, all: seq<Entry>, k: nat)
    requires FillingImage(im, all, k) && k < |all|
    ensures im.Prefix() <= all[k].key && |im.Prefix()| == im.prefixLength
    ensures hashing.header + HashSlotBytes(k + 1) + |all[k].key| - im.prefixLength + |all[k].payload| <= im.dataOffset
    ensures k < im.hashCapacity && k < HashSlotCapacity() && |im.slots| == k
  {
    assert FillingNow(Unfold, im, all, k);
    OkIs(im);
    var p := im.prefixLength;
    assert StartsWith(all[k], im.Prefix());
    forall i | 0 <= i < |all| ensures p <= |all[i].key| { assert StartsWith(all[i], im.Prefix()); }
    FirstOfSize(im.entries, all, p, k, k);
    SizeUpToMonotone(all, p, k + 1, |all|);
    SizeUpToNonNegative(all, p, |all|);
    HashSlotBytesMonotone(k + 1, |all|);
    HashSlotFits(k + 1);
  }

  /** One more entry stored keeps the page under construction. */
  lemma FillStep(was: HashImage, now: HashImage, all: seq<Entry>, k: nat, stored: Key, payload: seq<Byte>)
    requires FillingImage(was, all, k) && k < |all| && all[k] == Entry(was.Prefix() + stored, payload)
    requires StoredLast(was, now, stored, payload)
    ensures FillingImage(now, all, k + 1)
  {
    assert FillingNow(Unfold, was, all, k);
    assert StoresLast(Unfold, was, now, stored, payload);
    OkIs(was);
    FillRoom(was, all, k);
    StoredLastOk(was, now, stored, payload);
    FirstOfNext(was.entries, all, k, all[k]);
  }

  lemma EmptyOk(im: HashImage)
    requires im.FencesOk() && im.slots == [] && im.entries == [] && im.spaceUsed == |im.lower| + |im.upper|
    requires im.hashOffset == im.dataOffset && im.dataOffset + im.spaceUsed + im.hashCapacity == sizes.leaf
    requires hashing.header <= im.dataOffset
    ensures im.Ok()
  {
    OkIs(im);
  }

  /** The two writes of storeKeyValue: key and payload below the data, the hash into its cell. */
  lemma WritesAre(heap: seq<Byte>, offset: nat, stored: Key, payload: seq<Byte>, cell: nat, hash: Byte)
    requires offset + |stored| + |payload| <= cell < |heap|
    ensures var now := Write(heap, offset, stored + payload)[cell := hash];
      && BytesAt(now, offset, stored) && BytesAt(now, offset + |stored|, payload)
      && SameBytes(heap, now, offset + |stored| + |payload|, cell) && SameBytes(heap, now, cell + 1, |heap|)
  {
    var mid := Write(heap, offset, stored + payload);
    WriteIs(heap, offset, stored + payload);
    BytesAtParts(mid, offset, stored, payload);
    HashBeside(heap, mid, offset, stored, payload, cell, hash);
  }

  /** Writing the hash changes nothing around it. */
  lemma HashBeside(heap: seq<Byte>, mid: seq<Byte>, offset: nat, stored: Key, payload: seq<Byte>, cell: nat, hash: Byte)
    requires offset + |stored| + |payload| <= cell < |heap| == |mid| && SameBytes(heap, mid, offset + |stored| + |payload|, |heap|)
    requires BytesAt(mid, offset, stored) && BytesAt(mid, offset + |stored|, payload)
    ensures var now := mid[cell := hash];
      && BytesAt(now, offset, stored) && BytesAt(now, offset + |stored|, payload)
      && SameBytes(heap, now, offset + |stored| + |payload|, cell) && SameBytes(heap, now, cell + 1, |heap|)
  {
    BytesAtKept(mid, mid[cell := hash], offset, stored);
    BytesAtKept(mid, mid[cell := hash], offset + |stored|, payload);
  }

  lemma StoredEntries(was: HashImage, now: HashImage, stored: Key, payload: seq<Byte>)
    requires StoredLast(was, now, stored, payload)
    ensures now.entries == was.entries + [Entry(was.Prefix() + stored, payload)]
  {
    assert StoresLast(Unfold, was, now, stored, payload);
  }

  lemma NextSlotBytes(n: nat)
    ensures HashSlotBytes(n + 1) == HashSlotBytes(n) + hashing.slot
  {
  }

  lemma StoredLastIs(was: HashImage, now: HashImage, stored: Key, payload: seq<Byte>)
    requires was.Ok() && |was.slots| < was.hashCapacity
    requires now == was.(spaceUsed := now.spaceUsed, dataOffset := now.dataOffset, slots := now.slots, heap := now.heap, entries := now.entries)
    requires now.dataOffset + |stored| + |payload| == was.dataOffset && now.spaceUsed == was.spaceUsed + |stored| + |payload|
    requires now.slots == was.slots + [HashSlot(now.dataOffset, |stored|, |payload|)]
    requires now.entries == was.entries + [Entry(was.Prefix() + stored, payload)]
    requires was.dataOffset <= was.hashOffset + |was.slots| < |was.heap|
    requires now.heap == Write(was.heap, now.dataOffset, stored + payload)[was.hashOffset + |was.slots| := ComputeHash(stored)]
    ensures StoredLast(was, now, stored, payload)
  {
    OkIs(was);
    WritesAre(was.heap, now.dataOffset, stored, payload, was.hashOffset + |was.slots|, ComputeHash(stored));
    assert StoresLast(Unfold, was, now, stored, payload);
  }

  /** Where things are in a page. */
  lemma Bounds(im: HashImage)
    requires im.Ok()
    ensures |im.heap| == sizes.leaf && |im.slots| == |im.entries| <= im.hashCapacity
    ensures hashing.header + HashSlotBytes(|im.slots|) <= im.dataOffset <= im.hashOffset
    ensures im.hashOffset + im.hashCapacity + |im.lower| + |im.upper| <= sizes.leaf
    ensures im.dataOffset + im.spaceUsed + im.hashCapacity <= sizes.leaf
    ensures |im.Prefix()| == im.prefixLength && AllStartWith(im.entries, im.Prefix())
  {
    OkIs(im);
    HashKeysHavePrefix(im);
  }

  lemma RoomBehindFences(n: Node, count: nat, offset: int)
    requires SpaceUsed(n) + SlotBytes(count) + sizes.header <= sizes.leaf && offset == sizes.leaf - |n.lower| - |n.upper|
    ensures RoomFor(n.entries, 0, PrefixLength(n), count, offset)
  {
    RoomForAll(n.entries, PrefixLength(n), count, offset);
  }

  // ---- capacity ----

  function Max(a: nat, b: nat): nat {
    if a < b then b else a
  }

  function Min(a: nat, b: nat): nat {
    if a < b then a else b
  }

  /** estimateCapacity of a page with that many bytes of fences, fences and entries, and entries. */
  function Capacity(fences: nat, spaceUsed: nat, count: nat): nat
    requires fences <= spaceUsed && hashing.header + fences <= sizes.leaf
  {
    var available := sizes.leaf - hashing.header - fences;
    var entrySpaceUse := spaceUsed - fences + HashSlotBytes(count);
    MulSign(available, count);
    if count == 0 then sizes.leaf / 64 else available * count / (entrySpaceUse + count)
  }

  /** When a hash byte per entry fits, the estimate covers all entries and still leaves room for them. */
  lemma CapacityIs(fences: nat, spaceUsed: nat, count: nat)
    requires fences <= spaceUsed && spaceUsed + HashSlotBytes(count) + count + hashing.header <= sizes.leaf
    ensures count <= Capacity(fences, spaceUsed, count)
    ensures count > 0 ==> hashing.header + HashSlotBytes(count) + Capacity(fences, spaceUsed, count) + spaceUsed <= sizes.leaf
  {
    if count > 0 {
      CapacityBounds(sizes.leaf - hashing.header - fences, spaceUsed - fences + HashSlotBytes(count), count);
    }
  }

  /** With entries the estimate is the largest number of cells whose share of the page, in proportion to what an entry
      with a cell of its own takes, is not exceeded; an empty page gets a cell for every 64 bytes. */
  lemma CapacityLargest(fences: nat, spaceUsed: nat, count: nat)
    requires fences <= spaceUsed && hashing.header + fences <= sizes.leaf
    ensures var c, available, use := Capacity(fences, spaceUsed, count), sizes.leaf - hashing.header - fences, spaceUsed - fences + hashing.slot * count;
      if count == 0 then 64 * c <= sizes.leaf < 64 * (c + 1)
      else c * (use + count) <= available * count < (c + 1) * (use + count)
  {
    HashSlotBytesIs(count);
    if count > 0 {
      var available, d := sizes.leaf - hashing.header - fences, spaceUsed - fences + HashSlotBytes(count) + count;
      MulSign(available, count);
      QuotientIs(available * count, d);
    }
  }

  lemma QuotientIs(x: nat, d: nat)
    requires d > 0
    ensures (x / d) * d <= x < (x / d + 1) * d
  {
    assert (x / d + 1) * d == (x / d) * d + d;
  }

  /** The capacity estimateCapacity computes for a page. */
  ghost predicate IsEstimate(capacity: nat, n: Node) {
    forall u: Unfold :: EstimateNow(u, capacity, n)
  }

  ghost predicate EstimateNow(u: Unfold, capacity: nat, n: Node) {
    && |n.lower| + |n.upper| <= SpaceUsed(n) && hashing.header + |n.lower| + |n.upper| <= sizes.leaf
    && capacity == Capacity(|n.lower| + |n.upper|, SpaceUsed(n), |n.entries|)
  }

  lemma EstimateUnique(n: Node, a: nat, b: nat)
    requires IsEstimate(a, n) && IsEstimate(b, n)
    ensures a == b
  {
    assert EstimateNow(Unfold, a, n) && EstimateNow(Unfold, b, n);
  }

  /** With the estimated hash array the page still fits. */
  lemma EstimateFits(n: Node, capacity: nat)
    requires IsEstimate(capacity, n) && |n.entries| > 0
    requires SpaceUsed(n) + HashSlotBytes(|n.entries|) + |n.entries| + hashing.header <= sizes.leaf
    ensures hashing.header + HashSlotBytes(|n.entries|) + capacity + SpaceUsed(n) <= sizes.leaf
  {
    assert EstimateNow(Unfold, capacity, n);
    CapacityIs(|n.lower| + |n.upper|, SpaceUsed(n), |n.entries|);
  }

  /** What splitting a hash page comes to. */
  datatype HashSplit =
    | Halves(left: HashNode)
    | SeparatorThere // the parent has the separator already: an assertion fails
    | LeftTooLong    // copying to the left half runs into its slots

  /** The left half of a split fits a page with the estimated hash array. */
  ghost predicate LeftHalfFits(n: Node, slot: nat, sep: Key) {
    slot < |n.entries| && forall capacity: nat | IsEstimate(capacity, n) :: HashFits(n.lower, sep, capacity, n.entries[0..slot + 1])
  }

  lemma LeftFitsIs(n: Node, slot: nat, sep: Key, capacity: nat)
    requires IsEstimate(capacity, n) && slot < |n.entries|
    ensures LeftHalfFits(n, slot, sep) <==> HashFits(n.lower, sep, capacity, n.entries[0..slot + 1])
  {
    forall other: nat | IsEstimate(other, n) ensures other == capacity { EstimateUnique(n, other, capacity); }
  }

  /** Bytes an entry's key shares with the first one. */
  ghost function Shares(es: seq<Entry>, i: nat): nat
    requires i < |es|
  {
    CommonPrefix(es[i].key, es[0].key)
  }

  /** The slot at which a page of more than sixteen entries is cut. Unfolded only where OtherNow is mentioned. */
  ghost predicate CutAfterOther(es: seq<Entry>, slot: nat) {
    forall u: Unfold :: OtherNow(u, es, slot)
  }

  ghost predicate OtherNow(u: Unfold, es: seq<Entry>, slot: nat) {
    var lower, upper := |es| / 2 - |es| / 16, |es| / 2;
    && lower <= slot < upper <= |es|
    && (forall j | lower <= j < slot :: Shares(es, j) == Shares(es, lower))
    && if slot == lower then Shares(es, upper - 1) == Shares(es, lower) else Shares(es, slot) != Shares(es, lower)
  }

  lemma CutHere(es: seq<Entry>, slot: nat)
    requires |es| > 16 && |es| / 2 - |es| / 16 <= slot < |es| / 2
    requires forall j | |es| / 2 - |es| / 16 <= j < slot :: Shares(es, j) == Shares(es, |es| / 2 - |es| / 16)
    requires if slot == |es| / 2 - |es| / 16 then Shares(es, |es| / 2 - 1) == Shares(es, slot)
             else Shares(es, slot) != Shares(es, |es| / 2 - |es| / 16)
    ensures CutAfterOther(es, slot)
  {
    assert OtherNow(Unfold, es, slot);
  }

  /** It is the first of the sixteenth before the middle that shares another number of bytes with the first key than the
      first of that sixteenth, which is taken only if the last shares as many. */
  lemma CutAfterOtherIs(es: seq<Entry>, slot: nat)
    requires |es| > 16 && CutAfterOther(es, slot)
    ensures var lower, upper := |es| / 2 - |es| / 16, |es| / 2;
      && lower <= slot < upper
      && (forall j | lower <= j < slot :: CommonPrefix(es[j].key, es[0].key) == CommonPrefix(es[lower].key, es[0].key))
      && if slot == lower then CommonPrefix(es[upper - 1].key, es[0].key) == CommonPrefix(es[lower].key, es[0].key)
         else CommonPrefix(es[slot].key, es[0].key) != CommonPrefix(es[lower].key, es[0].key)
  {
    assert OtherNow(Unfold, es, slot);
    forall j | |es| / 2 - |es| / 16 <= j < slot
      ensures CommonPrefix(es[j].key, es[0].key) == CommonPrefix(es[|es| / 2 - |es| / 16].key, es[0].key)
    {
      assert Shares(es, j) == Shares(es, |es| / 2 - |es| / 16);
    }
  }

  class HashNode {
    var count: nat
    var sortedCount: nat
    var spaceUsed: nat
    var dataOffset: nat
    var prefixLength: nat
    var hashCapacity: nat
    var hashOffset: nat
    var lowerFenceLen: nat
    var upperFenceLen: nat
    /** The slot array; the first count slots are in use. */
    var slot: seq<HashSlot>
    var heap: seq<Byte>

    ghost var lowerKey: Key
    ghost var upperKey: Key
    ghost var entries: seq<Entry>

    ghost function ImageOf(n: nat): HashImage
      reads this
    {
      HashImage(spaceUsed, dataOffset, prefixLength, hashCapacity, hashOffset,
                if n <= |slot| then slot[..n] else slot, heap, lowerKey, upperKey, entries)
    }

    ghost predicate FencesMatch()
      reads this
    {
      lowerFenceLen == |lowerKey| && upperFenceLen == |upperKey| && |slot| == HashSlotCapacity() && Aligned(sizes.leaf)
    }

    ghost predicate LayoutOf(n: nat)
      reads this
    {
      FencesMatch() && n <= |slot| && ImageOf(n).Ok()
    }

    /** What validate checks, and more: hashes match, the sorted part is strictly sorted, no key is there twice. */
    ghost predicate Valid()
      reads this
    {
      && LayoutOf(count) && sortedCount <= count == |entries|
      && SortedRange(entries, 0, sortedCount) && Distinct(entries)
    }

    ghost function View(): Node
      reads this
    {
      Node(true, lowerKey, upperKey, entries, 0)
    }

    ghost predicate PrefixMatches(key: Key)
      reads this
    {
      FencePrefix(lowerKey, upperKey) <= key
    }

    /** HashNode::init. */
    constructor (lower: Key, upper: Key, capacity: nat)
      requires Aligned(sizes.leaf) && hashing.header + |lower| + |upper| + capacity <= sizes.leaf
      ensures LayoutOf(0) && count == 0 && sortedCount == 0 && entries == []
      ensures lowerKey == lower && upperKey == upper && hashCapacity == capacity
      ensures dataOffset + spaceUsed + capacity == sizes.leaf && spaceUsed == |lower| + |upper|
    {
      count, sortedCount := 0, 0;
      spaceUsed := |upper| + |lower|;
      dataOffset := sizes.leaf - (|upper| + |lower|) - capacity;
      hashOffset := sizes.leaf - (|upper| + |lower|) - capacity;
      hashCapacity := capacity;
      lowerFenceLen, upperFenceLen := |lower|, |upper|;
      prefixLength := 0;
      slot := seq(HashSlotCapacity(), _ => HashSlot(0, 0, 0));
      heap := seq(sizes.leaf - |lower| - |upper|, _ => 0) + upper + lower;
      lowerKey, upperKey, entries := lower, upper, [];
      new;
      prefixLength := MatchingBytes(lower, upper);
      FreshFences(lower, upper);
      EmptyOk(ImageOf(0));
    }

    lemma FreshFences(lower: Key, upper: Key)
      requires |lower| + |upper| <= sizes.leaf && |heap| == sizes.leaf
      requires heap[sizes.leaf - |lower| - |upper|..] == upper + lower
      ensures BytesAt(heap, sizes.leaf - |lower|, lower) && BytesAt(heap, sizes.leaf - |lower| - |upper|, upper)
    {
      var at := sizes.leaf - |lower| - |upper|;
      assert heap[at..at + |upper + lower|] == heap[at..];
      BytesAtIs(heap, at, upper + lower);
      BytesAtParts(heap, at, upper, lower);
    }

    // ---- reading ----

    function GetKey(i: nat): Key
      requires i < |slot| && slot[i].offset + slot[i].keyLen <= |heap|
      reads this
    {
      StoredKey(heap, slot[i])
    }

    lemma SlotIs(i: nat)
      requires LayoutOf(count) && i < count
      ensures |entries| == count && |ImageOf(count).Prefix()| == prefixLength <= |entries[i].key|
      ensures slot[i].offset + slot[i].keyLen + slot[i].payloadLen <= |heap|
      ensures slot[i].keyLen == |GetKey(i)| == |entries[i].key| - prefixLength
      ensures GetKey(i) == entries[i].key[prefixLength..] && entries[i].key == FencePrefix(lowerKey, upperKey) + GetKey(i)
      ensures StoredPayload(heap, slot[i]) == entries[i].payload
    {
      OkIs(ImageOf(count));
      SlotReads(ImageOf(count), i);
    }

    /** HashNode::storeKeyValue as slot n of a page with n slots in use. */
    method StoreKeyValue(n: nat, stored: Key, payload: seq<Byte>, hash: Byte)
      requires LayoutOf(n) && n < hashCapacity && hash == ComputeHash(stored)
      requires hashing.header + HashSlotBytes(n + 1) + |stored| + |payload| <= dataOffset
      modifies this`slot, this`heap, this`dataOffset, this`spaceUsed, this`entries
      ensures LayoutOf(n + 1) && StoredLast(old(ImageOf(n)), ImageOf(n + 1), stored, payload)
    {
      ghost var was := ImageOf(n);
      Bounds(was);
      HashSlotFits(n + 1);
      dataOffset := dataOffset - (|stored| + |payload|);
      spaceUsed := spaceUsed + |stored| + |payload|;
      slot := slot[n := HashSlot(dataOffset, |stored|, |payload|)];
      heap := Write(heap, dataOffset, stored + payload)[hashOffset + n := hash];
      entries := entries + [Entry(was.Prefix() + stored, payload)];
      StoredLastIs(was, ImageOf(n + 1), stored, payload);
      StoredLastOk(was, ImageOf(n + 1), stored, payload);
    }

    method GetFences() returns (lower: Key, upper: Key)
      requires LayoutOf(count)
      ensures lower == lowerKey && upper == upperKey
    {
      OkIs(ImageOf(count));
      BytesAtIs(heap, sizes.leaf - lowerFenceLen, lowerKey);
      BytesAtIs(heap, sizes.leaf - lowerFenceLen - upperFenceLen, upperKey);
      lower := heap[sizes.leaf - lowerFenceLen..sizes.leaf];
      upper := heap[sizes.leaf - lowerFenceLen - upperFenceLen..sizes.leaf - lowerFenceLen];
    }

    // ---- lookup ----

    /** The hashes and stored keys of the slots in use. */
    ghost predicate Scanned(hashes: seq<Byte>, keys: seq<Key>)
      reads this
    {
      && |hashes| == |keys| == count <= |slot| && hashOffset + count <= |heap|
      && hashes == heap[hashOffset..hashOffset + count]
      && forall i | 0 <= i < count :: ReadAs(heap, slot, keys, i)
    }

    /** A hash that does not match rules a slot out, and the keys in use are distinct, so the first match is
        the only slot with the key. */
    lemma MatchIsKey(hashes: seq<Byte>, keys: seq<Key>, key: Key, index: int)
      requires LayoutOf(count) && PrefixMatches(key) && Scanned(hashes, keys) && prefixLength <= |key|
      requires FirstMatch(hashes, keys, ComputeHash(key[prefixLength..]), key[prefixLength..], index)
      ensures |entries| == count
      ensures index >= 0 ==> index < count && entries[index].key == key
      ensures index < 0 ==> Absent(entries, key)
    {
      OkIs(ImageOf(count));
      var stored := key[prefixLength..];
      forall i | 0 <= i < count
        ensures MatchAt(hashes, keys, ComputeHash(stored), stored, i) <==> entries[i].key == key
      {
        SlotIs(i);
        assert ReadAs(heap, slot, keys, i);
        assert ImageOf(count).HashAt(i);
        assert key == FencePrefix(lowerKey, upperKey) + stored;
      }
    }

    /** The stored keys, as the scans read them. */
    method StoredKeys() returns (keys: seq<Key>)
      requires LayoutOf(count)
      ensures hashOffset + count <= |heap| && Scanned(heap[hashOffset..hashOffset + count], keys)
    {
      Bounds(ImageOf(count));
      keys := [];
      for i: nat := 0 to count
        invariant |keys| == i
        invariant forall j | 0 <= j < i :: ReadAs(heap, slot, keys, j)
      {
        SlotIs(i);
        ghost var before := keys;
        keys := keys + [GetKey(i)];
        forall j | 0 <= j < i + 1 ensures ReadAs(heap, slot, keys, j) {
          if j < i { assert ReadAs(heap, slot, before, j); }
        }
      }
    }

    /** HashNode::findIndex with the hash of the key: the slot of the key, or -1. */
    method FindIndex(key: Key) returns (index: int)
      requires LayoutOf(count) && PrefixMatches(key)
      ensures -1 <= index < count == |entries|
      ensures index >= 0 ==> entries[index].key == key
      ensures index < 0 ==> Absent(entries, key)
    {
      Bounds(ImageOf(count));
      var keys := StoredKeys();
      if count == 0 {
        return -1;
      }
      var stored := key[prefixLength..];
      index := FindIndexSimd(heap, hashOffset, keys, ComputeHash(stored), stored);
      MatchIsKey(heap[hashOffset..hashOffset + count], keys, key, index);
    }

    method Lookup(key: Key) returns (payload: Option<seq<Byte>>)
      requires Valid() && PrefixMatches(key)
      ensures payload.Some? <==> !Absent(entries, key)
      ensures payload.Some? ==> Entry(key, payload.value) in entries
    {
      var index := FindIndex(key);
      if index < 0 {
        return None;
      }
      SlotIs(index);
      assert entries[index] == Entry(key, StoredPayload(heap, slot[index]));
      return Some(StoredPayload(heap, slot[index]));
    }

    // ---- space ----

    function FreeSpace(): int
      reads this
    {
      dataOffset - (hashing.header + HashSlotBytes(count))
    }

    function FreeSpaceAfterCompaction(): int
      reads this
    {
      sizes.leaf - (hashing.header + HashSlotBytes(count)) - spaceUsed
    }

    lemma SpaceIsExact()
      requires LayoutOf(count)
      ensures |entries| == count && spaceUsed == |lowerKey| + |upperKey| + StoredSize(entries, prefixLength)
      ensures lowerFenceLen + upperFenceLen <= spaceUsed
      ensures spaceUsed + HashSlotBytes(count) + count + hashing.header <= sizes.leaf
      ensures prefixLength == CommonPrefix(lowerKey, upperKey)
    {
      OkIs(ImageOf(count));
      EntriesFit(ImageOf(count));
    }

    lemma SpaceOfView()
      requires LayoutOf(count)
      ensures spaceUsed == SpaceUsed(View()) && count == |View().entries| && prefixLength == PrefixLength(View())
    {
      SpaceIsExact();
    }

    /** The source assumes the estimate is at least the count: it always is. */
    method EstimateCapacity() returns (capacity: nat)
      requires LayoutOf(count)
      ensures IsEstimate(capacity, View()) && capacity >= count
    {
      SpaceIsExact();
      CapacityIs(lowerFenceLen + upperFenceLen, spaceUsed, count);
      var available := sizes.leaf - hashing.header - upperFenceLen - lowerFenceLen;
      var entrySpaceUse := spaceUsed - upperFenceLen - lowerFenceLen + HashSlotBytes(count);
      capacity := if count == 0 then sizes.leaf / 64 else available * count / (entrySpaceUse + count);
      assert available == sizes.leaf - hashing.header - (lowerFenceLen + upperFenceLen);
      assert entrySpaceUse == spaceUsed - (lowerFenceLen + upperFenceLen) + HashSlotBytes(count);
      assert capacity == Capacity(lowerFenceLen + upperFenceLen, spaceUsed, count);
      assert EstimateNow(Unfold, capacity, View());
    }

    // ---- copying ----

    /** This page, under construction, has the first k of all. */
    ghost predicate Filling(all: seq<Entry>, k: nat)
      reads this
    {
      FencesMatch() && k <= |slot| && FillingImage(ImageOf(k), all, k)
    }

    method FillNext(stored: Key, payload: seq<Byte>, k: nat, ghost all: seq<Entry>)
      requires Filling(all, k) && k < |all| && all[k] == Entry(FencePrefix(lowerKey, upperKey) + stored, payload)
      modifies this`slot, this`heap, this`dataOffset, this`spaceUsed, this`entries
      ensures Filling(all, k + 1)
    {
      ghost var was := ImageOf(k);
      FillRoom(was, all, k);
      FillingIs(was, all, k);
      StoreKeyValue(k, stored, payload, ComputeHash(stored));
      FillStep(was, ImageOf(k + 1), all, k, stored, payload);
    }

    /** What a copy stores of slot i in a page with another prefix. */
    method PartsFor(i: nat, otherLength: nat, ghost otherPrefix: Key) returns (stored: Key, payload: seq<Byte>)
      requires LayoutOf(count) && i < count && |entries| == count
      requires |otherPrefix| == otherLength && otherPrefix <= entries[i].key
      ensures entries[i] == Entry(otherPrefix + stored, payload)
    {
      SlotIs(i);
      payload := StoredPayload(heap, slot[i]);
      if prefixLength <= otherLength {
        stored := GetKey(i)[otherLength - prefixLength..];
      } else {
        var lower, _ := GetFences();
        stored := (lower[..prefixLength] + GetKey(i))[otherLength..];
      }
    }

    method CopyNext(dst: HashNode, srcSlot: nat, k: nat, ghost all: seq<Entry>)
      requires dst != this && LayoutOf(count) && srcSlot < count == |entries|
      requires dst.Filling(all, k) && k < |all| && all[k] == entries[srcSlot]
      modifies dst`slot, dst`heap, dst`dataOffset, dst`spaceUsed, dst`entries
      ensures dst.Filling(all, k + 1)
    {
      FillRoom(dst.ImageOf(k), all, k);
      FillingIs(dst.ImageOf(k), all, k);
      var stored, payload := PartsFor(srcSlot, dst.prefixLength, FencePrefix(dst.lowerKey, dst.upperKey));
      dst.FillNext(stored, payload, k, all);
    }

    /** HashNode::copyKeyValueRange */
    method CopyKeyValueRange(dst: HashNode, dstSlot: nat, srcSlot: nat, srcCount: nat, ghost all: seq<Entry>)
      requires dst != this && LayoutOf(count) && srcSlot + srcCount <= count == |entries|
      requires dst.Filling(all, dstSlot) && dstSlot == dst.count && dstSlot + srcCount <= |all|
      requires forall i | 0 <= i < srcCount :: CopiesTo(all, dstSlot, srcSlot, i)
      modifies dst`slot, dst`heap, dst`dataOffset, dst`spaceUsed, dst`entries, dst`count
      ensures dst.Filling(all, dst.count) && dst.count == dstSlot + srcCount
    {
      for i: nat := 0 to srcCount
        invariant dst.Filling(all, dstSlot + i) && dst.count == dstSlot
      {
        assert CopiesTo(all, dstSlot, srcSlot, i);
        CopyNext(dst, srcSlot + i, dstSlot + i, all);
      }
      dst.count := dst.count + srcCount;
    }

    ghost predicate CopiesTo(all: seq<Entry>, dstSlot: nat, srcSlot: nat, i: nat)
      reads this
    {
      dstSlot + i < |all| && srcSlot + i < |entries| && all[dstSlot + i] == entries[srcSlot + i]
    }

    /** A page that has received everything. */
    lemma Filled(all: seq<Entry>)
      requires Filling(all, count) && count == |all|
      ensures LayoutOf(count) && entries == all && dataOffset + spaceUsed + hashCapacity == sizes.leaf
    {
      FillingIs(ImageOf(count), all, count);
      FirstOfAll(entries, all);
    }

    /** A fresh page about to receive entries. */
    static method NewPage(lower: Key, upper: Key, capacity: nat, ghost all: seq<Entry>) returns (p: HashNode)
      requires Aligned(sizes.leaf) && HashFits(lower, upper, capacity, all)
      ensures fresh(p) && p.Filling(all, 0) && p.count == 0 && p.sortedCount == 0
      ensures p.lowerKey == lower && p.upperKey == upper && p.hashCapacity == capacity
      ensures p.prefixLength == CommonPrefix(lower, upper)
    {
      assert forall i | 0 <= i < |all| :: StartsWith(all[i], FencePrefix(lower, upper));
      StoredSizeNonNegative(all, CommonPrefix(lower, upper));
      p := new HashNode(lower, upper, capacity);
      OkIs(p.ImageOf(0));
      assert FillingNow(Unfold, p.ImageOf(0), all, 0);
    }

    method CopyHeader(other: HashNode)
      requires other != this
      modifies this`count, this`sortedCount, this`spaceUsed, this`dataOffset, this`prefixLength, this`hashCapacity, this`hashOffset
      ensures count == other.count && sortedCount == other.sortedCount && spaceUsed == other.spaceUsed && dataOffset == other.dataOffset
      ensures prefixLength == other.prefixLength && hashCapacity == other.hashCapacity && hashOffset == other.hashOffset
    {
      count, sortedCount, spaceUsed, dataOffset := other.count, other.sortedCount, other.spaceUsed, other.dataOffset;
      prefixLength, hashCapacity, hashOffset := other.prefixLength, other.hashCapacity, other.hashOffset;
    }

    method CopyBytes(other: HashNode)
      requires other != this
      modifies this`lowerFenceLen, this`upperFenceLen, this`slot, this`heap, this`lowerKey, this`upperKey, this`entries
      ensures lowerFenceLen == other.lowerFenceLen && upperFenceLen == other.upperFenceLen && slot == other.slot && heap == other.heap
      ensures lowerKey == other.lowerKey && upperKey == other.upperKey && entries == other.entries
    {
      lowerFenceLen, upperFenceLen, slot, heap := other.lowerFenceLen, other.upperFenceLen, other.slot, other.heap;
      lowerKey, upperKey, entries := other.lowerKey, other.upperKey, other.entries;
    }

    /** memcpy of a whole page. */
    method CopyFrom(other: HashNode)
      requires other != this
      modifies this
      ensures count == other.count && sortedCount == other.sortedCount && hashCapacity == other.hashCapacity
      ensures spaceUsed == other.spaceUsed && dataOffset == other.dataOffset
      ensures ImageOf(count) == other.ImageOf(count) && FencesMatch() == other.FencesMatch()
      ensures slot == other.slot && lowerKey == other.lowerKey && upperKey == other.upperKey && entries == other.entries
    {
      CopyHeader(other);
      CopyBytes(other);
    }

    // ---- compaction ----

    lemma CanRebuild(capacity: nat)
      requires LayoutOf(count) && count <= capacity <= FreeSpaceAfterCompaction()
      ensures HashFits(lowerKey, upperKey, capacity, entries)
    {
      SpaceIsExact();
      Bounds(ImageOf(count));
    }

    /** A new page with the same entries in the same order, a hash array of that capacity and no garbage. */
    method Rebuilt(capacity: nat) returns (tmp: HashNode)
      requires LayoutOf(count) && count <= capacity <= FreeSpaceAfterCompaction()
      ensures fresh(tmp) && tmp.LayoutOf(tmp.count) && tmp.count == count && tmp.View() == View()
      ensures tmp.hashCapacity == capacity && tmp.dataOffset + tmp.spaceUsed + capacity == sizes.leaf
    {
      Bounds(ImageOf(count));
      CanRebuild(capacity);
      var lower, upper := GetFences();
      tmp := NewPage(lower, upper, capacity, entries);
      CopyKeyValueRange(tmp, 0, 0, count, entries);
      tmp.Filled(entries);
    }

    /** HashNode::compactify: all free space in one piece, as much as announced. */
    method Compactify(newHashCapacity: nat)
      requires Valid() && count <= newHashCapacity <= FreeSpaceAfterCompaction()
      modifies this
      ensures Valid() && View() == old(View()) && count == old(count) && sortedCount == old(sortedCount)
      ensures hashCapacity == newHashCapacity && spaceUsed == old(spaceUsed)
      ensures FreeSpace() == old(FreeSpaceAfterCompaction()) - newHashCapacity
    {
      SpaceIsExact();
      var tmp := Rebuilt(newHashCapacity);
      tmp.SpaceIsExact();
      tmp.sortedCount := sortedCount;
      CopyFrom(tmp);
    }

    /** A larger hash array below the data; the cells are copied, the old array stays behind unused. */
    method MoveHashes(capacity: nat)
      requires LayoutOf(count) && count <= capacity <= FreeSpace()
      modifies this`dataOffset, this`heap, this`hashOffset, this`hashCapacity
      ensures LayoutOf(count) && hashCapacity == capacity && dataOffset == old(dataOffset) - capacity
    {
      ghost var was := ImageOf(count);
      Bounds(was);
      dataOffset := dataOffset - capacity;
      heap := Write(heap, dataOffset, heap[hashOffset..hashOffset + count]);
      hashOffset := dataOffset;
      hashCapacity := capacity;
      HashesWritten(was, ImageOf(count), capacity);
      HashesMovedOk(was, ImageOf(count), capacity);
    }

    lemma EstimateExists() returns (estimate: nat)
      requires LayoutOf(count)
      ensures IsEstimate(estimate, View()) && forall other: nat | IsEstimate(other, View()) :: other == estimate
    {
      SpaceIsExact();
      estimate := Capacity(lowerFenceLen + upperFenceLen, spaceUsed, count);
      assert EstimateNow(Unfold, estimate, View());
      forall other: nat | IsEstimate(other, View()) ensures other == estimate { EstimateUnique(View(), other, estimate); }
    }

    /** Room for one slot more: there is a free hash cell and space for it, or space for a larger hash array besides, or
        a rebuilt page has room and its hash array gains more than three cells for every 128 entries. The larger hash
        array has the estimated capacity, but at least a cell for the new slot. */
    method RequestSlotAndSpace(kvSize: nat) returns (ok: bool)
      requires Valid()
      modifies this
      ensures Valid() && View() == old(View()) && count == old(count) && sortedCount == old(sortedCount)
      ensures forall estimate: nat | IsEstimate(estimate, View()) ::
        var capacity := if estimate <= count then count + 1 else estimate;
        ok <==>
          || (count < old(hashCapacity) && hashing.header + HashSlotBytes(count + 1) + kvSize <= old(dataOffset))
          || hashing.header + HashSlotBytes(count + 1) + kvSize + capacity <= old(dataOffset)
          || (hashing.header + HashSlotBytes(count + 1) + kvSize + capacity + old(spaceUsed) <= sizes.leaf
              && 128 * (capacity - count) > 3 * count)
      ensures ok ==> count < hashCapacity && kvSize + hashing.slot <= FreeSpace()
    {
      Bounds(ImageOf(count));
      NextSlotBytes(count);
      ghost var e := EstimateExists();
      if count < hashCapacity && kvSize + hashing.slot <= FreeSpace() {
        return true;
      }
      var estimate := EstimateCapacity();
      var onCompactifyCapacity := Max(estimate, count + 1);
      if count < hashCapacity {
        if onCompactifyCapacity + kvSize + hashing.slot > FreeSpaceAfterCompaction() {
          return false;
        }
      } else {
        var hashGrowCapacity := onCompactifyCapacity;
        if hashGrowCapacity + kvSize + hashing.slot <= FreeSpace() {
          MoveHashes(hashGrowCapacity);
          return true;
        } else if onCompactifyCapacity + kvSize + hashing.slot > FreeSpaceAfterCompaction() {
          return false;
        }
      }
      if onCompactifyCapacity <= count + count * 3 / 128 {
        return false;
      }
      Compactify(onCompactifyCapacity);
      return true;
    }

    // ---- insert and remove ----

    /** HashNode::insert of a key that is not there: it is stored if and only if it fits as the page is, with a larger
        hash array below the data, or in a rebuilt page with such an array, if that gains enough cells. */
    method Insert(key: Key, payload: seq<Byte>) returns (ok: bool)
      requires Valid() && PrefixMatches(key) && Absent(entries, key)
      modifies this
      ensures Valid() && lowerKey == old(lowerKey) && upperKey == old(upperKey)
      ensures forall estimate: nat | IsEstimate(estimate, old(View())) ::
        var n, bytes := |old(entries)|, hashing.slot + |key| - old(prefixLength) + |payload|;
        var capacity := if estimate <= n then n + 1 else estimate;
        ok <==>
          || (n < old(hashCapacity) && hashing.header + HashSlotBytes(n) + bytes <= old(dataOffset))
          || hashing.header + HashSlotBytes(n) + bytes + capacity <= old(dataOffset)
          || (HashFits(lowerKey, upperKey, capacity, old(entries) + [Entry(key, payload)]) && 128 * (capacity - n) > 3 * n)
      ensures entries == if ok then old(entries) + [Entry(key, payload)] else old(entries)
    {
      Bounds(ImageOf(count));
      NextSlotBytes(count);
      ghost var e := EstimateExists();
      var stored := key[prefixLength..];
      WithEntry(key, payload, if e <= count then count + 1 else e);
      ok := RequestSlotAndSpace(|key| - prefixLength + |payload|);
      if !ok {
        return;
      }
      Bounds(ImageOf(count));
      var index := FindIndex(key);
      assert index < 0;
      AppendKeepsOrder(entries, Entry(key, payload), sortedCount);
      Append(key, key[prefixLength..], payload);
    }

    /** What a page with one entry more takes. */
    lemma WithEntry(key: Key, payload: seq<Byte>, capacity: nat)
      requires LayoutOf(count) && PrefixMatches(key) && count < capacity
      ensures HashFits(lowerKey, upperKey, capacity, entries + [Entry(key, payload)]) <==>
        hashing.header + HashSlotBytes(count + 1) + |key| - prefixLength + |payload| + capacity + spaceUsed <= sizes.leaf
    {
      SpaceIsExact();
      Bounds(ImageOf(count));
      var e := Entry(key, payload);
      StoredSizeConcat(entries, [e], prefixLength);
      StoredSizeOne(e, prefixLength);
      forall i | 0 <= i < |entries + [e]| ensures StartsWith((entries + [e])[i], FencePrefix(lowerKey, upperKey)) {
        if i < |entries| { assert StartsWith(entries[i], FencePrefix(lowerKey, upperKey)); }
      }
    }

    method Append(key: Key, stored: Key, payload: seq<Byte>)
      requires LayoutOf(count) && count < hashCapacity && key == FencePrefix(lowerKey, upperKey) + stored
      requires hashing.slot + |stored| + |payload| <= FreeSpace()
      modifies this`slot, this`heap, this`dataOffset, this`spaceUsed, this`entries, this`count
      ensures LayoutOf(count) && count == old(count) + 1 && entries == old(entries) + [Entry(key, payload)]
    {
      StoreNext(stored, payload);
      count := count + 1;
    }

    /** Stores an entry in the next slot. */
    method StoreNext(stored: Key, payload: seq<Byte>)
      requires LayoutOf(count) && count < hashCapacity && hashing.slot + |stored| + |payload| <= FreeSpace()
      modifies this`slot, this`heap, this`dataOffset, this`spaceUsed, this`entries
      ensures LayoutOf(count + 1)
      ensures entries == old(entries) + [Entry(FencePrefix(lowerKey, upperKey) + stored, payload)]
    {
      ghost var was := ImageOf(count);
      NextSlotBytes(count);
      StoreKeyValue(count, stored, payload, ComputeHash(stored));
      StoredEntries(was, ImageOf(count + 1), stored, payload);
    }

    /** Slots and hash cells above slotId move down; the bytes stay behind unused. */
    method CloseSlot(slotId: nat)
      requires LayoutOf(count) && slotId < count
      modifies this`slot, this`heap, this`spaceUsed, this`entries, this`count
      ensures LayoutOf(count) && count == old(count) - 1 && |old(entries)| == old(count)
      ensures entries == Removed(old(entries), slotId)
    {
      ghost var was := ImageOf(count);
      CanRemove(was, slotId);
      MovedDownRemoves(slot, slotId, count);
      spaceUsed := spaceUsed - slot[slotId].keyLen - slot[slotId].payloadLen;
      slot := MovedDown(slot, slotId, count);
      heap := Write(heap, hashOffset + slotId, heap[hashOffset + slotId + 1..hashOffset + count]);
      count := count - 1;
      entries := Removed(entries, slotId);
      CellsClosed(was, ImageOf(count), slotId);
      SlotRemovedOk(was, ImageOf(count), slotId);
    }

    /** HashNode::removeSlot */
    method RemoveSlot(slotId: nat)
      requires Valid() && slotId < count
      modifies this
      ensures Valid() && count == old(count) - 1 && View() == RemoveAt(old(View()), slotId)
    {
      RemoveKeepsOrder(entries, slotId, sortedCount);
      CloseSlot(slotId);
      sortedCount := if slotId < sortedCount then sortedCount - 1 else sortedCount;
    }

    method Remove(key: Key) returns (removed: bool)
      requires Valid() && PrefixMatches(key)
      modifies this
      ensures Valid() && removed == !Absent(old(entries), key)
      ensures lowerKey == old(lowerKey) && upperKey == old(upperKey) && Absent(entries, key)
      ensures removed ==> exists i ::
        (0 <= i < |old(entries)| && old(entries)[i].key == key && entries == Removed(old(entries), i))
      ensures !removed ==> entries == old(entries)
    {
      var index := FindIndex(key);
      if index < 0 {
        return false;
      }
      RemovedIsAbsent(entries, index);
      RemoveSlot(index);
      return true;
    }

    // ---- order ----

    /** The slots in order, and the page's bytes with all hashes computed anew: first the tail is sorted, then
        it is merged with the sorted part. */
    method SortedSlots() returns (slots: seq<HashSlot>, heap': seq<Byte>, ghost es: seq<Entry>)
      requires Valid()
      ensures |slots| == |slot| && Sorted(es) && multiset(es) == multiset(entries) && |es| == count
      ensures ImageOf(count).(slots := slots[..count], heap := heap', entries := es).Ok()
    {
      ghost var was := ImageOf(count);
      Bounds(was);
      OkIs(was);
      ghost var mid, now;
      slots, mid := SortSlots(heap, slot[..count], was, sortedCount, sortedCount, count);
      SortedPartKept(was, mid, sortedCount, count);
      slots, now := SortSlots(heap, slots, mid, 0, sortedCount, count);
      SortedRangeAll(now.entries);
      es := now.entries;
      assert slots == (slots + slot[count..])[..count];
      slots := slots + slot[count..];
      heap' := UpdateHashes(heap, hashOffset, slots, count, now);
    }

    /** HashNode::sort */
    method Sort()
      requires Valid()
      modifies this
      ensures Valid() && sortedCount == count == old(count) && Sorted(entries)
      ensures multiset(entries) == multiset(old(entries))
      ensures lowerKey == old(lowerKey) && upperKey == old(upperKey) && spaceUsed == old(spaceUsed)
      ensures prefixLength == old(prefixLength)
    {
      if sortedCount == count {
        SortedRangeAll(entries);
        return;
      }
      ghost var es;
      slot, heap, es := SortedSlots();
      entries, sortedCount := es, count;
      SortedIsDistinct(entries);
    }

    /** Sign of the comparison of a key with the one in slot mid. */
    function CompareAt(fullKey: Key, mid: nat): (c: int)
      requires LayoutOf(count) && mid < count && PrefixMatches(fullKey)
      reads this
      ensures |entries| == count
      ensures c < 0 ==> Less(fullKey, entries[mid].key)
      ensures c > 0 ==> Less(entries[mid].key, fullKey)
      ensures c == 0 ==> fullKey == entries[mid].key
    {
      SlotIs(mid);
      var key := fullKey[prefixLength..];
      assert fullKey == FencePrefix(lowerKey, upperKey) + key;
      PrefixShift(FencePrefix(lowerKey, upperKey), key, GetKey(mid));
      PrefixShift(FencePrefix(lowerKey, upperKey), GetKey(mid), key);
      var cmp := Memcmp(key, GetKey(mid));
      if cmp != 0 then cmp else |key| - slot[mid].keyLen
    }

    /** HashNode::lowerBound of a sorted page. */
    method LowerBound(fullKey: Key) returns (pos: nat, found: bool)
      requires LayoutOf(count) && Sorted(entries) && PrefixMatches(fullKey)
      ensures |entries| == count && IsLowerBound(entries, fullKey, pos)
      ensures found <==> pos < count && entries[pos].key == fullKey
    {
      Bounds(ImageOf(count));
      var lower: nat, upper: nat := 0, count;
      while lower < upper
        invariant 0 <= lower <= upper <= count && Brackets(entries, fullKey, lower, upper)
      {
        var mid := (upper - lower) / 2 + lower;
        var c := CompareAt(fullKey, mid);
        if c < 0 {
          BracketsLess(entries, fullKey, lower, upper, mid);
          upper := mid;
        } else if c > 0 {
          BracketsGreater(entries, fullKey, lower, upper, mid);
          lower := mid + 1;
        } else {
          BracketsFound(entries, fullKey, mid);
          return mid, true;
        }
      }
      pos, found := lower, false;
      BracketsClosed(entries, fullKey, lower);
    }

    // ---- merge ----

    /** HashNode::mergeNodes: puts this page's entries and those of the page to its right into one page,
        which replaces the right one; this page's slot in the parent is removed. The two merge if and only if they fit one
        page with a hash array of the smaller estimate, but a cell for each entry, and with the fence between them counted
        twice. */
    method MergeNodes(slotId: nat, parent: BTreeNode, right: HashNode) returns (merged: bool)
      requires this != right && Valid() && right.Valid() && parent.Valid() && slotId < parent.count == |parent.entries|
      requires InFences(View()) && InFences(right.View()) && upperKey == right.lowerKey != []
      modifies right, parent
      ensures right.Valid() && parent.Valid()
      ensures forall a: nat, b: nat | IsEstimate(a, View()) && IsEstimate(b, old(right.View())) ::
        var n, least := |entries| + |old(right.entries)|, if a < b then a else b;
        var capacity := if least < n then n else least;
        merged <==> HashFits(lowerKey, old(right.upperKey), capacity + 2 * |upperKey|, entries + old(right.entries))
      ensures right.View() == if merged then Merge(View(), old(right.View())) else old(right.View())
      ensures parent.View() == if merged then RemoveAt(old(parent.View()), slotId) else old(parent.View())
    {
      var tmp;
      ghost var capacity;
      merged, tmp, capacity := MergedPage(right);
      MergesWhen(View(), right.View(), capacity);
      if merged {
        parent.RemoveSlot(slotId);
        right.CopyFrom(tmp);
      }
    }

    /** The space mergeNodes asks for and the capacity of the merged page's hash array. */
    method MergeSpaceBound(right: HashNode, newPrefix: nat) returns (spaceUpperBound: int, newHashCapacity: nat)
      requires LayoutOf(count) && right.LayoutOf(right.count) && newPrefix == CommonPrefix(lowerKey, right.upperKey)
      ensures IsMergeCapacity(newHashCapacity, View(), right.View())
      ensures spaceUpperBound == MergeNeeds(View(), right.View(), newHashCapacity)
    {
      newHashCapacity := CapacityForMerge(right);
      SpaceOfView();
      right.SpaceOfView();
      var leftGrow := Growth(prefixLength, newPrefix, count);
      var rightGrow := Growth(right.prefixLength, newPrefix, right.count);
      spaceUpperBound := spaceUsed + right.spaceUsed + newHashCapacity
        + hashing.header + HashSlotBytes(count + right.count) + leftGrow + rightGrow;
      MergeBoundIs(View(), right.View(), spaceUsed, right.spaceUsed, count, right.count, prefixLength, right.prefixLength,
                   newPrefix, newHashCapacity);
    }

    method CapacityForMerge(right: HashNode) returns (newHashCapacity: nat)
      requires LayoutOf(count) && right.LayoutOf(right.count)
      ensures IsMergeCapacity(newHashCapacity, View(), right.View())
    {
      Bounds(ImageOf(count));
      Bounds(right.ImageOf(right.count));
      var leftEstimate := EstimateCapacity();
      var rightEstimate := right.EstimateCapacity();
      newHashCapacity := Max(Min(leftEstimate, rightEstimate), count + right.count);
      assert MergeCapacity(View(), right.View(), leftEstimate, rightEstimate) == newHashCapacity;
    }

    method MergedPage(right: HashNode) returns (merged: bool, tmp: HashNode, ghost capacity: nat)
      requires this != right && Valid() && right.Valid()
      requires InFences(View()) && InFences(right.View()) && upperKey == right.lowerKey != []
      ensures IsMergeCapacity(capacity, View(), right.View())
      ensures merged <==> MergeNeeds(View(), right.View(), capacity) <= sizes.leaf
      ensures merged ==> fresh(tmp) && tmp.Valid() && tmp.View() == Merge(View(), right.View())
      ensures !merged ==> tmp == this
    {
      var lower, _ := GetFences();
      var _, upper := right.GetFences();
      var newPrefix := MatchingBytes(lower, upper);
      var spaceUpperBound, newHashCapacity := MergeSpaceBound(right, newPrefix);
      capacity := newHashCapacity;
      if spaceUpperBound > sizes.leaf {
        merged, tmp := false, this;
        return;
      }
      MergeHashFits(View(), right.View(), newHashCapacity);
      MergeDistinct(View(), right.View());
      tmp := FilledFrom(right, lower, upper, newHashCapacity);
      merged := true;
    }

    method FilledFrom(right: HashNode, lower: Key, upper: Key, capacity: nat) returns (tmp: HashNode)
      requires this != right && Valid() && right.Valid() && HashFits(lower, upper, capacity, entries + right.entries)
      requires Distinct(entries + right.entries)
      ensures fresh(tmp) && tmp.Valid() && tmp.View() == Node(true, lower, upper, entries + right.entries, 0)
    {
      ghost var all := entries + right.entries;
      tmp := NewPage(lower, upper, capacity, all);
      CopyAllTo(tmp, all, 0);
      right.CopyAllTo(tmp, all, count);
      tmp.Filled(all);
    }

    /** Appends all entries of this page to a page under construction that is to hold them from k on. */
    method CopyAllTo(dst: HashNode, ghost all: seq<Entry>, k: nat)
      requires dst != this && LayoutOf(count) && dst.Filling(all, k) && dst.count == k
      requires |entries| == count && k + count <= |all| && all[k..k + count] == entries
      modifies dst`slot, dst`heap, dst`dataOffset, dst`spaceUsed, dst`entries, dst`count
      ensures dst.Filling(all, dst.count) && dst.count == k + count
    {
      forall i | 0 <= i < count ensures CopiesTo(all, k, 0, i) {
        assert all[k..k + count][i] == entries[i];
      }
      CopyKeyValueRange(dst, k, 0, count, all);
    }

    // ---- separators and splits ----

    /** Leading bytes the keys of two slots share beyond the prefix. */
    method SharedBytes(slotA: nat, slotB: nat) returns (n: nat)
      requires LayoutOf(count) && slotA < count && slotB < count
      ensures |entries| == count && prefixLength + n == CommonPrefix(entries[slotA].key, entries[slotB].key)
    {
      SlotIs(slotA);
      SlotIs(slotB);
      PrefixShift(FencePrefix(lowerKey, upperKey), GetKey(slotA), GetKey(slotB));
      n := MatchingBytes(GetKey(slotA), GetKey(slotB));
    }

    /** The slot after which to split: the first in the middle that shares another number of bytes with the
        first key. */
    method BestSlot() returns (bestSlot: nat)
      requires LayoutOf(count) && count > 1
      ensures count == |entries| && (count <= 16 ==> bestSlot == (count - 1) / 2)
      ensures count > 16 ==> count / 2 - count / 16 <= bestSlot < count / 2 && CutAfterOther(entries, bestSlot)
    {
      SpaceIsExact();
      if count > 16 {
        bestSlot := FirstOther(count / 2 - count / 16, count / 2);
        CutHere(entries, bestSlot);
      } else {
        bestSlot := (count - 1) / 2;
      }
    }

    /** The first slot from lower on that shares another number of bytes with the first key, if the last one below upper
        does; otherwise lower. */
    method FirstOther(lower: nat, upper: nat) returns (bestSlot: nat)
      requires LayoutOf(count) && count == |entries| && lower < upper <= count
      ensures lower <= bestSlot < upper && forall j | lower <= j < bestSlot :: Shares(entries, j) == Shares(entries, lower)
      ensures if bestSlot == lower then Shares(entries, upper - 1) == Shares(entries, lower)
              else Shares(entries, bestSlot) != Shares(entries, lower)
    {
      var bestPrefixLength := SharedWithFirst(lower);
      var last := SharedWithFirst(upper - 1);
      if bestPrefixLength == last {
        return lower;
      }
      bestSlot := lower + 1;
      while bestSlot < upper
        invariant lower < bestSlot < upper
        invariant forall j | lower <= j < bestSlot :: Shares(entries, j) == Shares(entries, lower)
      {
        var shared := SharedWithFirst(bestSlot);
        if shared != bestPrefixLength {
          break;
        }
        bestSlot := bestSlot + 1;
      }
    }

    method SharedWithFirst(slotId: nat) returns (n: nat)
      requires LayoutOf(count) && slotId < count == |entries|
      ensures prefixLength + n == Shares(entries, slotId)
    {
      n := SharedBytes(slotId, 0);
    }

    /** HashNode::findSeparator of a sorted page: up to sixteen entries are cut in the middle, more after the first slot of
        the sixteenth before the middle that shares another number of bytes with the first key, or else where that
        sixteenth begins. The separator is one byte more than the two keys there share if both are longer, else the whole
        key. */
    method FindSeparator() returns (info: SeparatorInfo)
      requires LayoutOf(count) && Sorted(entries) && count > 1
      ensures info.slot + 1 < count == |entries| && (count >= 3 ==> info.slot >= 1) && (count <= 16 ==> info.slot == (count - 1) / 2)
      ensures count > 16 ==> count / 2 - count / 16 <= info.slot < count / 2 && CutAfterOther(entries, info.slot)
      ensures prefixLength <= info.length && SeparatesAt(entries, info) && info == CutInfo(entries, info.slot)
      ensures var common, key := CommonPrefix(entries[info.slot].key, entries[info.slot + 1].key), entries[info.slot].key;
        if common < |key| && common + 1 < |entries[info.slot + 1].key| then info.isTruncated && info.length == common + 1
        else !info.isTruncated && info.length == |key|
    {
      Bounds(ImageOf(count));
      var bestSlot := BestSlot();
      info := CutAfter(bestSlot);
    }

    /** Tries to truncate the separator after a slot. */
    method CutAfter(bestSlot: nat) returns (info: SeparatorInfo)
      requires LayoutOf(count) && Sorted(entries) && bestSlot + 1 < count
      ensures |entries| == count && info.slot == bestSlot && prefixLength <= info.length
      ensures SeparatesAt(entries, info) && info == CutInfo(entries, bestSlot)
    {
      var common := SharedBytes(bestSlot, bestSlot + 1);
      SlotIs(bestSlot);
      SlotIs(bestSlot + 1);
      CutSeparates(entries, bestSlot, prefixLength + common);
      if bestSlot + 1 < count && slot[bestSlot].keyLen > common && slot[bestSlot + 1].keyLen > common + 1 {
        return SeparatorInfo(prefixLength + common + 1, bestSlot, true);
      }
      return SeparatorInfo(prefixLength + slot[bestSlot].keyLen, bestSlot, false);
    }

    /** HashNode::getSep */
    method GetSep(info: SeparatorInfo) returns (sep: Key)
      requires LayoutOf(count) && info.Source() < count == |entries|
      requires prefixLength <= info.length <= |entries[info.Source()].key|
      ensures sep == SepKey(entries, info)
    {
      SlotIs(info.Source());
      Bounds(ImageOf(count));
      var lower, _ := GetFences();
      sep := lower[..prefixLength] + GetKey(info.Source())[..info.length - prefixLength];
    }

    /** The half of a split with the entries from `from` on, n of them. */
    method HalfPage(lower: Key, upper: Key, capacity: nat, from: nat, n: nat) returns (p: HashNode)
      requires Valid() && Sorted(entries) && from + n <= count && HashFits(lower, upper, capacity, entries[from..from + n])
      ensures fresh(p) && p.Valid() && p.sortedCount == p.count && p.hashCapacity == capacity
      ensures p.View() == Node(true, lower, upper, entries[from..from + n], 0)
    {
      ghost var half := entries[from..from + n];
      p := NewPage(lower, upper, capacity, half);
      forall i | 0 <= i < n ensures CopiesTo(half, 0, from, i) {}
      CopyKeyValueRange(p, 0, from, n, half);
      p.Filled(half);
      SortedSlice(entries, from, from + n);
      SortedIsDistinct(half);
      p.sortedCount := p.count;
    }

    /** Both halves of a split, each with a hash array of that capacity. */
    method Halves(sepSlot: nat, sepKey: Key, capacity: nat) returns (nodeLeft: HashNode, right: HashNode)
      requires Valid() && Sorted(entries) && sepSlot + 1 <= count
      requires HashFits(lowerKey, sepKey, capacity, entries[0..sepSlot + 1])
      requires HashFits(sepKey, upperKey, capacity, entries[sepSlot + 1..sepSlot + 1 + (count - sepSlot - 1)])
      ensures fresh(nodeLeft) && nodeLeft.Valid() && nodeLeft.View() == SplitLeft(View(), sepSlot, sepKey)
      ensures fresh(right) && right.Valid() && right.View() == SplitRight(View(), sepSlot, sepKey)
    {
      var lower, upper := GetFences();
      nodeLeft := HalfPage(lower, sepKey, capacity, 0, sepSlot + 1);
      right := HalfPage(sepKey, upper, capacity, sepSlot + 1, count - sepSlot - 1);
      assert entries[0..sepSlot + 1] == entries[..sepSlot + 1];
      assert entries[sepSlot + 1..sepSlot + 1 + (count - sepSlot - 1)] == entries[sepSlot + 1..];
    }

    /** The estimate, and that the right half fits with it. */
    method SplitCapacity(sepSlot: nat, sepKey: Key) returns (capacity: nat)
      requires LayoutOf(count) && Ordered(View()) && SplitsAt(View(), sepSlot, sepKey) && |sepKey| <= |entries[sepSlot].key|
      ensures sepSlot + 1 <= count == |entries| <= capacity && IsEstimate(capacity, View())
      ensures HashFits(sepKey, upperKey, capacity, entries[sepSlot + 1..sepSlot + 1 + (count - sepSlot - 1)])
    {
      capacity := EstimateCapacity();
      SpaceIsExact();
      EstimateFits(View(), capacity);
      HashRightFits(View(), sepSlot, sepKey, capacity);
    }

    /** Bytes of the first n entries behind a prefix. */
    method SizeOfFirst(n: nat, prefix: nat) returns (size: int)
      requires LayoutOf(count) && n <= count == |entries|
      ensures size == SizeUpTo(entries, prefix, n)
    {
      size := 0;
      for i: nat := 0 to n
        invariant size == SizeUpTo(entries, prefix, i)
      {
        SlotIs(i);
        size := size + slot[i].keyLen + prefixLength - prefix + slot[i].payloadLen;
      }
    }

    /** Whether copyKeyValueRange to the left half ends without running into the slots. */
    method FitsLeft(sepSlot: nat, sepKey: Key, capacity: nat) returns (fits: bool)
      requires LayoutOf(count) && sepSlot + 1 <= count == |entries|
      ensures fits <==> LeftBytes(View(), sepSlot, sepKey, capacity) <= sizes.leaf
    {
      var lower, _ := GetFences();
      var prefix := MatchingBytes(lower, sepKey);
      var size := SizeOfFirst(sepSlot + 1, prefix);
      fits := hashing.header + HashSlotBytes(sepSlot + 1) + capacity + |lower| + |sepKey| + size <= sizes.leaf;
    }

    /** HashNode::splitNode without adapting the layout: the left half goes to a new page, this page keeps the
        right half. Nothing checks beforehand that the left half fits with the separator as its upper fence. */
    method SplitNode(parent: BTreeNode, sepSlot: nat, sepKey: Key, leftAddress: Address) returns (r: HashSplit)
      requires Valid() && Ordered(View()) && SplitsAt(View(), sepSlot, sepKey) && |sepKey| <= |entries[sepSlot].key|
      requires parent.Valid() && Sorted(parent.entries) && parent.PrefixMatches(sepKey)
      requires SpaceNeeded(parent.View(), |sepKey|, CHILD_BYTES) <= FreeAfterCompaction(parent.View())
      modifies this, parent
      ensures Valid() && parent.Valid()
      ensures r.SeparatorThere? <==> !Absent(old(parent.entries), sepKey)
      ensures r.LeftTooLong? <==> Absent(old(parent.entries), sepKey) && !LeftHalfFits(old(View()), sepSlot, sepKey)
      ensures r.Halves? ==> fresh(r.left) && r.left.Valid() && r.left.View() == SplitLeft(old(View()), sepSlot, sepKey)
      ensures View() == if r.Halves? then SplitRight(old(View()), sepSlot, sepKey) else old(View())
      ensures parent.View() == if r.SeparatorThere? then old(parent.View())
                               else InsertEntry(old(parent.View()), Entry(sepKey, EncodePtr(leftAddress)))
    {
      var capacity := SplitCapacity(sepSlot, sepKey);
      LeftFitsIs(View(), sepSlot, sepKey, capacity);
      LeftShape(View(), sepSlot, sepKey, capacity);
      var inserted := parent.InsertChild(sepKey, leftAddress);
      if !inserted {
        return SeparatorThere;
      }
      var fits := FitsLeft(sepSlot, sepKey, capacity);
      if !fits {
        return LeftTooLong;
      }
      var left, right := Halves(sepSlot, sepKey, capacity);
      CopyFrom(right);
      r := HashSplit.Halves(left);
    }

    // ---- changing the layout ----

    /** HashNode::tryConvertToBasic: a plain sorted page with the same entries, if they fit one. */
    method TryConvertToBasic() returns (ok: bool, node: BTreeNode)
      requires Valid()
      modifies this
      ensures Valid() && lowerKey == old(lowerKey) && upperKey == old(upperKey)
      ensures ok <==> sizes.header + SlotBytes(|old(entries)|) + SpaceUsed(old(View())) <= sizes.leaf
      ensures multiset(entries) == multiset(old(entries)) && (!ok ==> entries == old(entries))
      ensures ok ==> fresh(node) && node.Valid() && node.View() == View() && Sorted(entries)
    {
      SpaceIsExact();
      if spaceUsed + SlotBytes(count) + sizes.header > sizes.leaf {
        node := new BTreeNode(true);
        return false, node;
      }
      ghost var was := entries;
      Sort();
      SpaceIsExact();
      assert |entries| == |was|;
      node := AsBasic();
      return true, node;
    }

    method AsBasic() returns (node: BTreeNode)
      requires LayoutOf(count) && Sorted(entries) && spaceUsed + SlotBytes(count) + sizes.header <= sizes.leaf
      ensures fresh(node) && node.Valid() && node.View() == View()
    {
      Bounds(ImageOf(count));
      node := EmptyBasic();
      CopyKeyValueRangeToBasic(node, sizes.leaf);
      node.Finish(count, 0, entries, sizes.leaf);
    }

    /** A plain page with the same fences, ready to get the entries. */
    method EmptyBasic() returns (node: BTreeNode)
      requires LayoutOf(count) && spaceUsed + SlotBytes(count) + sizes.header <= sizes.leaf
      ensures fresh(node) && node.isLeaf && node.lowerKey == lowerKey && node.upperKey == upperKey
      ensures node.Receiving([], entries, 0, sizes.leaf)
    {
      RoomOutside();
      var lower, upper := GetFences();
      node := BTreeNode.PageFor(true, lower, upper, entries);
    }

    lemma RoomOutside()
      requires LayoutOf(count) && spaceUsed + SlotBytes(count) + sizes.header <= sizes.leaf
      ensures sizes.header + |lowerKey| + |upperKey| <= sizes.leaf && AllStartWith(entries, FencePrefix(lowerKey, upperKey))
      ensures RoomFor(entries, 0, CommonPrefix(lowerKey, upperKey), |entries|, sizes.leaf - |lowerKey| - |upperKey|)
    {
      SpaceIsExact();
      Bounds(ImageOf(count));
      RoomBehindFences(View(), count, sizes.leaf - |lowerKey| - |upperKey|);
    }

    /** HashNode::copyKeyValueRangeToBasic into an empty page with the same fences. */
    method CopyKeyValueRangeToBasic(dst: BTreeNode, ghost total: nat)
      requires LayoutOf(count) && count == |entries| && dst.Receiving([], entries, 0, total)
      requires dst.lowerKey == lowerKey && dst.upperKey == upperKey
      modifies dst`slot, dst`heap, dst`dataOffset, dst`spaceUsed, dst`entries
      ensures dst.Receiving([], entries, count, total)
    {
      for i: nat := 0 to count
        invariant dst.Receiving([], entries, i, total)
      {
        SlotIs(i);
        PrefixIsShared(dst.ImageOf(i));
        var stored, payload := PartsFor(i, prefixLength, FencePrefix(lowerKey, upperKey));
        dst.ReceiveNext(stored, payload, i, i, [], entries, total);
      }
    }

    /** BTreeNode::tryConvertToHash: the guard lets every entry have a hash byte besides its slot; then the
        capacity computed covers all entries and slots, hash array, entries and fences fit. */
    static method TryConvertToHash(src: BTreeNode) returns (ok: bool, node: HashNode)
      requires Aligned(sizes.leaf) && src.Valid() && src.isLeaf && Sorted(src.entries)
      requires |src.lowerKey| <= MaxKVSize() && |src.upperKey| <= MaxKVSize()
      ensures fresh(node)
      ensures ok <==> SpaceUsed(src.View()) + |src.entries| + HashSlotBytes(|src.entries|) + hashing.header <= sizes.leaf
      ensures ok ==> node.Valid() && node.View() == src.View().(upperChild := 0) && node.sortedCount == node.count
      ensures ok ==> node.hashCapacity >= |src.entries|
    {
      Basics(src.ImageOf(src.count));
      src.SpaceIsExact();
      FencesFit(src.ImageOf(src.count));
      if src.spaceUsed + (src.count + HashSlotBytes(src.count)) + hashing.header > sizes.leaf {
        node := EmptyPage();
        return false, node;
      }
      CapacityIs(|src.lowerKey| + |src.upperKey|, src.spaceUsed, src.count);
      var lower, upper := src.GetFences();
      var capacity := Capacity(|lower| + |upper|, src.spaceUsed, src.count);
      node := AsHash(src, lower, upper, capacity);
      return true, node;
    }

    /** A hash page with the fences and entries of a plain one. */
    static method AsHash(src: BTreeNode, lower: Key, upper: Key, capacity: nat) returns (node: HashNode)
      requires Aligned(sizes.leaf) && src.Valid() && src.isLeaf && Sorted(src.entries) && lower == src.lowerKey && upper == src.upperKey
      requires src.count <= capacity && hashing.header + HashSlotBytes(src.count) + capacity + src.spaceUsed <= sizes.leaf
      ensures fresh(node) && node.Valid() && node.View() == src.View().(upperChild := 0) && node.sortedCount == node.count
      ensures node.hashCapacity == capacity
    {
      Basics(src.ImageOf(src.count));
      src.SpaceIsExact();
      EntriesStartWithPrefix(src.ImageOf(src.count));
      PrefixIsShared(src.ImageOf(src.count));
      node := NewPage(lower, upper, capacity, src.entries);
      CopyKeyValueRangeToHash(src, node);
      node.count := src.count;
      node.Filled(src.entries);
      SortedIsDistinct(src.entries);
      node.sortedCount := node.count;
    }

    static method EmptyPage() returns (node: HashNode)
      requires Aligned(sizes.leaf)
      ensures fresh(node)
    {
      node := new HashNode([], [], 0);
    }

    /** BTreeNode::copyKeyValueRangeToHash into an empty page with the same fences. */
    static method CopyKeyValueRangeToHash(src: BTreeNode, dst: HashNode)
      requires src.LayoutOf(src.count) && |src.entries| == src.count && dst.Filling(src.entries, 0)
      requires dst.lowerKey == src.lowerKey && dst.upperKey == src.upperKey
      modifies dst`slot, dst`heap, dst`dataOffset, dst`spaceUsed, dst`entries
      ensures dst.Filling(src.entries, src.count)
    {
      for i: nat := 0 to src.count
        invariant dst.Filling(src.entries, i)
      {
        src.SlotIsEntry(i);
        PrefixIsShared(src.ImageOf(src.count));
        dst.FillNext(src.GetKey(i), src.GetPayload(i), i, src.entries);
      }
    }
  }

  // ---- merging and splitting ----

  /** Fences in order and all keys between them; the entries need not be sorted. */
  ghost predicate InFences(n: Node) {
    (n.upper == [] || LessEq(n.lower, n.upper)) && AllWithin(n.entries, n.lower, n.upper)
  }

  ghost function MergeCapacity(l: Node, r: Node, leftEstimate: nat, rightEstimate: nat): nat {
    Max(Min(leftEstimate, rightEstimate), |l.entries| + |r.entries|)
  }

  /** The capacity of the merged page's hash array. */
  ghost predicate IsMergeCapacity(capacity: nat, l: Node, r: Node) {
    && capacity >= |l.entries| + |r.entries|
    && exists a: nat, b: nat :: IsEstimate(a, l) && IsEstimate(b, r) && capacity == MergeCapacity(l, r, a, b)
  }

  /** What mergeNodes compares with the page size: the merged page with its hash array, and the fence between
      the two counted twice. */
  ghost function MergeNeeds(l: Node, r: Node, capacity: nat): int {
    hashing.header + HashSlotBytes(|l.entries| + |r.entries|) + capacity
    + SpaceUsed(Merge(l, r)) + |l.upper| + |r.lower|
  }

  /** Merging makes the prefix shorter, and all keys still start with it. */
  lemma MergeKeys(l: Node, r: Node)
    requires InFences(l) && InFences(r) && l.upper == r.lower != []
    ensures CommonPrefix(l.lower, r.upper) <= PrefixLength(l) && CommonPrefix(l.lower, r.upper) <= PrefixLength(r)
    ensures AllStartWith(l.entries + r.entries, FencePrefix(l.lower, r.upper))
  {
    MergeOrdered(l.(isLeaf := true, entries := []), r.(isLeaf := true, entries := []));
    var all := l.entries + r.entries;
    forall i | 0 <= i < |all| ensures StartsWith(all[i], FencePrefix(l.lower, r.upper)) {
      if i < |l.entries| {
        assert Within(l.lower, l.upper, l.entries[i].key);
        if r.upper != [] { LessEqTrans(all[i].key, l.upper, r.upper); }
      } else {
        assert Within(r.lower, r.upper, r.entries[i - |l.entries|].key);
        LessEqTrans(l.lower, l.upper, all[i].key);
      }
      WithinSharesPrefix(l.lower, r.upper, all[i].key);
    }
  }

  /** The fence between the two parts their keys. */
  lemma MergeDistinct(l: Node, r: Node)
    requires InFences(l) && InFences(r) && l.upper == r.lower != [] && Distinct(l.entries) && Distinct(r.entries)
    ensures Distinct(l.entries + r.entries)
  {
    var all := l.entries + r.entries;
    forall i, j | 0 <= i < j < |all| ensures KeysDiffer(all, i, j) {
      if j < |l.entries| {
        assert KeysDiffer(l.entries, i, j);
      } else if |l.entries| <= i {
        assert KeysDiffer(r.entries, i - |l.entries|, j - |l.entries|);
      } else {
        assert Within(l.lower, l.upper, l.entries[i].key) && Within(r.lower, r.upper, r.entries[j - |l.entries|].key);
        LessEqTrans(all[i].key, l.upper, all[j].key);
        LessTotal(all[i].key, all[j].key);
        LessTotal(all[i].key, all[i].key);
      }
    }
  }

  /** The bound mergeNodes computes from the parts is what the merge needs. */
  lemma MergeHashNeeds(l: Node, r: Node, p: nat, capacity: nat)
    requires p == CommonPrefix(l.lower, r.upper)
    ensures SpaceUsed(l) + SpaceUsed(r) + capacity + hashing.header + HashSlotBytes(|l.entries| + |r.entries|)
            + Growth(PrefixLength(l), p, |l.entries|) + Growth(PrefixLength(r), p, |r.entries|) == MergeNeeds(l, r, capacity)
  {
    MergeSpace(l, r, p);
  }

  lemma MergeBoundIs(l: Node, r: Node, leftSpace: nat, rightSpace: nat, leftCount: nat, rightCount: nat,
                     leftPrefix: nat, rightPrefix: nat, p: nat, capacity: nat)
    requires leftSpace == SpaceUsed(l) && rightSpace == SpaceUsed(r) && leftCount == |l.entries| && rightCount == |r.entries|
    requires leftPrefix == PrefixLength(l) && rightPrefix == PrefixLength(r) && p == CommonPrefix(l.lower, r.upper)
    ensures leftSpace + rightSpace + capacity + hashing.header + HashSlotBytes(leftCount + rightCount)
            + Growth(leftPrefix, p, leftCount) + Growth(rightPrefix, p, rightCount) == MergeNeeds(l, r, capacity)
  {
    MergeHashNeeds(l, r, p, capacity);
  }

  lemma MergeHashFits(l: Node, r: Node, capacity: nat)
    requires InFences(l) && InFences(r) && l.upper == r.lower != [] && |l.entries| + |r.entries| <= capacity
    requires MergeNeeds(l, r, capacity) <= sizes.leaf
    ensures HashFits(l.lower, r.upper, capacity, l.entries + r.entries)
  {
    MergeKeys(l, r);
  }

  /** The bound mergeNodes compares with the page, by the page it would make. */
  lemma MergesWhen(l: Node, r: Node, capacity: nat)
    requires InFences(l) && InFences(r) && l.upper == r.lower != [] && IsMergeCapacity(capacity, l, r)
    ensures forall a: nat, b: nat | IsEstimate(a, l) && IsEstimate(b, r) ::
      var n, least := |l.entries| + |r.entries|, if a < b then a else b;
      && capacity == (if least < n then n else least)
      && (MergeNeeds(l, r, capacity) <= sizes.leaf <==> HashFits(l.lower, r.upper, capacity + 2 * |l.upper|, l.entries + r.entries))
  {
    MergeKeys(l, r);
    forall a: nat, b: nat | IsEstimate(a, l) && IsEstimate(b, r) ensures capacity == MergeCapacity(l, r, a, b) {
      var a': nat, b': nat :| IsEstimate(a', l) && IsEstimate(b', r) && capacity == MergeCapacity(l, r, a', b');
      EstimateUnique(l, a, a');
      EstimateUnique(r, b, b');
    }
  }

  /** Bytes the entries from k on occupy, slots included. */
  ghost function HashBytesFrom(n: Node, k: nat): int
    requires k <= |n.entries|
  {
    HashSlotBytes(|n.entries| - k) + StoredSize(n.entries[k..], PrefixLength(n))
  }

  lemma {:induction false} HashSlotBytesAdd(m: nat, n: nat)
    ensures HashSlotBytes(m + n) == HashSlotBytes(m) + HashSlotBytes(n)
  {
    if n > 0 {
      HashSlotBytesAdd(m, n - 1);
    }
  }

  /** With a hash array that fits the whole page, the right half of a split always fits. */
  lemma HashRightFits(n: Node, slot: nat, sep: Key, capacity: nat)
    requires Ordered(n) && n.isLeaf && SplitsAt(n, slot, sep) && |n.entries| <= capacity
    requires hashing.header + HashSlotBytes(|n.entries|) + capacity + SpaceUsed(n) <= sizes.leaf
    requires |sep| <= |n.entries[slot].key|
    ensures HashFits(sep, n.upper, capacity, n.entries[slot + 1..slot + 1 + (|n.entries| - slot - 1)])
  {
    var r := SplitRight(n, slot, sep);
    SplitSeparates(n, slot, sep);
    SplitOrdered(n, slot, sep);
    WholeSlice(r.entries);
    AllStartWithFencePrefix(r, r.entries, 0);
    HashRightSpace(n, r, slot);
    assert slot + 1 + (|n.entries| - slot - 1) == |n.entries|;
    assert n.entries[slot + 1..|n.entries|] == r.entries;
  }

  lemma WholeSlice(es: seq<Entry>)
    ensures es == es[0..0 + |es|]
  {
  }

  lemma HashRightSpace(n: Node, r: Node, slot: nat)
    requires Ordered(n) && slot < |n.entries| && r.entries == n.entries[slot + 1..] && r.upper == n.upper && Within(n.lower, n.upper, r.lower)
    requires |r.lower| <= |n.entries[slot].key|
    ensures HashSlotBytes(|r.entries|) + SpaceUsed(r) <= HashSlotBytes(|n.entries|) + SpaceUsed(n)
  {
    assert n.entries[slot + 1..|n.entries|] == r.entries;
    PartSpace(n, r, slot + 1, |n.entries|);
    SizesAround(n, slot);
    HashSlotBytesMonotone(|r.entries|, |n.entries|);
  }

  /** Bytes of a left half: slots, hash array, fences and entries. */
  ghost function LeftBytes(n: Node, slot: nat, sep: Key, capacity: nat): int
    requires slot < |n.entries|
  {
    hashing.header + HashSlotBytes(slot + 1) + capacity + |n.lower| + |sep| + SizeUpTo(n.entries, CommonPrefix(n.lower, sep), slot + 1)
  }

  /** All keys on the left start with the prefix of the left half's fences, so only the bytes matter. */
  lemma LeftShape(n: Node, slot: nat, sep: Key, capacity: nat)
    requires Ordered(n) && n.isLeaf && SplitsAt(n, slot, sep) && |n.entries| <= capacity
    ensures HashFits(n.lower, sep, capacity, n.entries[0..slot + 1]) <==> LeftBytes(n, slot, sep, capacity) <= sizes.leaf
  {
    var l := SplitLeft(n, slot, sep);
    SplitSeparates(n, slot, sep);
    SplitOrdered(n, slot, sep);
    assert n.entries[0..slot + 1] == n.entries[..slot + 1];
    WholeSlice(l.entries);
    AllStartWithFencePrefix(l, l.entries, 0);
    SizeOfTake(n.entries, CommonPrefix(n.lower, sep), slot + 1);
  }

  lemma SizeOfTake(es: seq<Entry>, p: nat, n: nat)
    requires n <= |es|
    ensures StoredSize(es[..n], p) == SizeUpTo(es, p, n)
  {
    SizeUpToTake(es, p, n, n);
  }

  lemma {:induction false} SizeUpToTake(es: seq<Entry>, p: nat, n: nat, k: nat)
    requires k <= n <= |es|
    ensures SizeUpTo(es[..n], p, k) == SizeUpTo(es, p, k)
  {
    if k > 0 { SizeUpToTake(es, p, n, k - 1); }
  }

  /** The left half fits when what leaves takes as many bytes as the separator has beyond the prefix. */
  lemma HashLeftFits(n: Node, slot: nat, sep: Key, capacity: nat)
    requires Ordered(n) && n.isLeaf && SplitsAt(n, slot, sep) && |n.entries| <= capacity
    requires hashing.header + HashSlotBytes(|n.entries|) + capacity + SpaceUsed(n) <= sizes.leaf
    requires |sep| - PrefixLength(n) <= HashBytesFrom(n, slot + 1)
    ensures HashFits(n.lower, sep, capacity, n.entries[0..slot + 1])
  {
    var l := SplitLeft(n, slot, sep);
    SplitSeparates(n, slot, sep);
    SplitOrdered(n, slot, sep);
    assert n.entries[0..slot + 1] == n.entries[..slot + 1];
    WholeSlice(l.entries);
    AllStartWithFencePrefix(l, l.entries, 0);
    HashLeftSpace(n, l, slot + 1);
  }

  lemma HashLeftSpace(n: Node, l: Node, k: nat)
    requires Ordered(n) && k <= |n.entries| && l.entries == n.entries[0..k] && l.lower == n.lower && Within(n.lower, n.upper, l.upper)
    requires |l.upper| - PrefixLength(n) <= HashBytesFrom(n, k)
    ensures HashSlotBytes(k) + SpaceUsed(l) <= HashSlotBytes(|n.entries|) + SpaceUsed(n)
  {
    assert n.entries[0..k] == n.entries[..k];
    PartSpace(n, l, 0, k);
    KeysHavePrefix(n);
    SizesSplit(n, k);
    HashSlotBytesAdd(k, |n.entries| - k);
  }

  /** The separator after a slot: one byte more than the two keys share, if both are longer than what would be left
      of them, or the whole key. */
  ghost function CutInfo(es: seq<Entry>, slot: nat): SeparatorInfo
    requires slot + 1 < |es|
  {
    var common := CommonPrefix(es[slot].key, es[slot + 1].key);
    if common < |es[slot].key| && common + 1 < |es[slot + 1].key| then SeparatorInfo(common + 1, slot, true)
    else SeparatorInfo(|es[slot].key|, slot, false)
  }

  /** The separator is from the key at the slot up to, not including, the next one; it is no longer than the key
      at the slot, and a proper part of the next key when it is truncated. */
  ghost predicate SeparatesAt(es: seq<Entry>, info: SeparatorInfo) {
    forall u: Unfold :: SeparatesNow(u, es, info)
  }

  ghost predicate SeparatesNow(u: Unfold, es: seq<Entry>, info: SeparatorInfo) {
    && info.slot + 1 < |es| && info.length <= |es[info.Source()].key|
    && LessEq(es[info.slot].key, SepKey(es, info)) && Less(SepKey(es, info), es[info.slot + 1].key)
    && |SepKey(es, info)| <= |es[info.slot].key|
    && (info.isTruncated ==> info.length < |es[info.slot + 1].key|)
  }

  /** One byte more than two neighbours share cuts between them; so does the whole lower key. */
  lemma CutSeparates(es: seq<Entry>, slot: nat, common: nat)
    requires Sorted(es) && slot + 1 < |es| && common == CommonPrefix(es[slot].key, es[slot + 1].key)
    ensures common < |es[slot].key| && common + 1 < |es[slot + 1].key| ==> SeparatesAt(es, SeparatorInfo(common + 1, slot, true))
    ensures SeparatesAt(es, SeparatorInfo(|es[slot].key|, slot, false))
  {
    assert InOrder(es, slot, slot + 1);
    var a, b := es[slot].key, es[slot + 1].key;
    assert a[..|a|] == a;
    assert SeparatesNow(Unfold, es, SeparatorInfo(|es[slot].key|, slot, false));
    if common < |a| && common + 1 < |b| {
      CutBetween(a, b, common);
      assert SeparatesNow(Unfold, es, SeparatorInfo(common + 1, slot, true));
    }
  }

  /** What a page with as many hash bytes as entries, or more, gives away to the right: if that is as long as the
      separator behind the prefix, the left half fits. */
  lemma LongEnoughRightFits(n: Node, slot: nat, sep: Key)
    requires Ordered(n) && n.isLeaf && SplitsAt(n, slot, sep)
    requires SpaceUsed(n) + HashSlotBytes(|n.entries|) + |n.entries| + hashing.header <= sizes.leaf
    requires |sep| - PrefixLength(n) <= HashBytesFrom(n, slot + 1)
    ensures LeftHalfFits(n, slot, sep)
  {
    forall capacity: nat | IsEstimate(capacity, n) ensures HashFits(n.lower, sep, capacity, n.entries[0..slot + 1]) {
      EstimateCovers(n, capacity);
      EstimateFits(n, capacity);
      HashLeftFits(n, slot, sep, capacity);
    }
  }

  lemma EstimateCovers(n: Node, capacity: nat)
    requires IsEstimate(capacity, n)
    requires SpaceUsed(n) + HashSlotBytes(|n.entries|) + |n.entries| + hashing.header <= sizes.leaf
    ensures |n.entries| <= capacity
  {
    assert EstimateNow(Unfold, capacity, n);
    CapacityIs(|n.lower| + |n.upper|, SpaceUsed(n), |n.entries|);
  }

  /** In particular a truncated separator always leaves the left half room. */
  lemma TruncatedLeftFits(n: Node, slot: nat, sep: Key)
    requires Ordered(n) && n.isLeaf && SplitsAt(n, slot, sep) && slot + 1 < |n.entries| && |sep| <= |n.entries[slot + 1].key|
    requires SpaceUsed(n) + HashSlotBytes(|n.entries|) + |n.entries| + hashing.header <= sizes.leaf
    ensures LeftHalfFits(n, slot, sep)
  {
    StoredSizeRest(n, slot + 2);
    FirstHashed(n, slot + 1);
    LongEnoughRightFits(n, slot, sep);
  }

  lemma StoredSizeRest(n: Node, k: nat)
    requires Ordered(n) && k <= |n.entries|
    ensures StoredSize(n.entries[k..], PrefixLength(n)) >= 0
  {
    KeysHavePrefix(n);
    StoredSizeNonNegative(n.entries[k..], PrefixLength(n));
  }

  lemma FirstHashed(n: Node, k: nat)
    requires k < |n.entries| && StoredSize(n.entries[k + 1..], PrefixLength(n)) >= 0
    ensures |n.entries[k].key| - PrefixLength(n) <= HashBytesFrom(n, k)
  {
    StoredSizeFirst(n.entries, k, PrefixLength(n));
  }

  lemma HashesWritten(was: HashImage, now: HashImage, capacity: nat)
    requires was.Ok() && |was.slots| <= capacity && now.dataOffset + capacity == was.dataOffset
    requires now == was.(dataOffset := now.dataOffset, hashCapacity := capacity, hashOffset := now.dataOffset, heap := now.heap)
    requires was.hashOffset + |was.slots| <= |was.heap|
    requires now.dataOffset + |was.slots| <= |was.heap|
    requires now.heap == Write(was.heap, now.dataOffset, was.heap[was.hashOffset..was.hashOffset + |was.slots|])
    ensures HashesMoved(was, now, capacity)
  {
    var cells := was.heap[was.hashOffset..was.hashOffset + |was.slots|];
    Bounds(was);
    WriteIs(was.heap, now.dataOffset, cells);
    forall i | 0 <= i < |was.slots| ensures CellMoved(was, now, i, 0) {
      WrittenAt(was.heap, now.dataOffset, cells, i);
    }
  }

  lemma WrittenAt(heap: seq<Byte>, offset: nat, bytes: seq<Byte>, i: nat)
    requires offset + |bytes| <= |heap| && i < |bytes|
    ensures Write(heap, offset, bytes)[offset + i] == bytes[i]
  {
  }

  lemma SortedRangeAll(es: seq<Entry>)
    requires SortedRange(es, 0, |es|)
    ensures Sorted(es)
  {
    forall i, j | 0 <= i < j < |es| ensures InOrder(es, i, j) {}
  }

  lemma SortedIsDistinct(es: seq<Entry>)
    requires Sorted(es)
    ensures Distinct(es) && SortedRange(es, 0, |es|)
  {
    forall i, j | 0 <= i < j < |es| ensures KeysDiffer(es, i, j) { DistinctKeys(es, i, j); }
    forall i, j | 0 <= i < j < |es| ensures InOrder(es, i, j) {}
  }

  /** Sorting the tail leaves the sorted part before it alone. */
  lemma SortedPartKept(was: HashImage, mid: HashImage, from: nat, hi: nat)
    requires from <= hi <= |was.entries| && Reordered(was, mid, from, hi) && SortedRange(was.entries, 0, from)
    ensures SortedRange(mid.entries, 0, from)
  {
    forall i, j | 0 <= i < j < from ensures InOrder(mid.entries, i, j) {
      assert InOrder(was.entries, i, j);
    }
  }

  lemma AppendKeepsOrder(es: seq<Entry>, e: Entry, sorted: nat)
    requires sorted <= |es| && SortedRange(es, 0, sorted) && Distinct(es) && Absent(es, e.key)
    ensures SortedRange(es + [e], 0, sorted) && Distinct(es + [e])
  {
    var r := es + [e];
    forall i, j | 0 <= i < j < sorted ensures InOrder(r, i, j) { assert InOrder(es, i, j); }
    forall i, j | 0 <= i < j < |r| ensures KeysDiffer(r, i, j) {
      if j < |es| { assert KeysDiffer(es, i, j); }
    }
  }

  lemma RemoveKeepsOrder(es: seq<Entry>, pos: nat, sorted: nat)
    requires pos < |es| && sorted <= |es| && SortedRange(es, 0, sorted) && Distinct(es)
    ensures SortedRange(Removed(es, pos), 0, if pos < sorted then sorted - 1 else sorted) && Distinct(Removed(es, pos))
  {
    var r := Removed(es, pos);
    var n := if pos < sorted then sorted - 1 else sorted;
    forall i, j | 0 <= i < j < n ensures InOrder(r, i, j) {
      assert InOrder(es, if i < pos then i else i + 1, if j < pos then j else j + 1);
    }
    forall i, j | 0 <= i < j < |r| ensures KeysDiffer(r, i, j) {
      assert KeysDiffer(es, if i < pos then i else i + 1, if j < pos then j else j + 1);
    }
  }

  lemma RemovedIsAbsent(es: seq<Entry>, pos: nat)
    requires pos < |es| && Distinct(es)
    ensures Absent(Removed(es, pos), es[pos].key)
  {
    var r := Removed(es, pos);
    forall i | 0 <= i < |r| ensures r[i].key != es[pos].key {
      if i < pos { assert KeysDiffer(es, i, pos); } else { assert KeysDiffer(es, pos, i + 1); }
    }
  }

  lemma CanRemove(im: HashImage, pos: nat)
    requires im.Ok() && pos < |im.slots|
    ensures |im.entries| == |im.slots| && im.slots[pos].keyLen + im.slots[pos].payloadLen <= im.spaceUsed
    ensures im.hashOffset + |im.slots| <= |im.heap| == sizes.leaf
  {
    OkIs(im);
    HashKeysHavePrefix(im);
    assert im.HeldAt(pos);
    StoredSizeRemove(im.entries, pos, im.prefixLength);
    StoredSizeNonNegative(Removed(im.entries, pos), im.prefixLength);
  }

  /** The memmove of the hash cells. */
  lemma CellsClosed(was: HashImage, now: HashImage, pos: nat)
    requires pos < |was.slots| == |was.entries| && was.hashOffset + |was.slots| <= |was.heap| == sizes.leaf
    requires now == was.(spaceUsed := now.spaceUsed, slots := Removed(was.slots, pos), entries := Removed(was.entries, pos), heap := now.heap)
    requires now.spaceUsed + was.slots[pos].keyLen + was.slots[pos].payloadLen == was.spaceUsed
    requires now.heap == Write(was.heap, was.hashOffset + pos, was.heap[was.hashOffset + pos + 1..was.hashOffset + |was.slots|])
    ensures SlotRemoved(was, now, pos)
  {
    var at, cells := was.hashOffset + pos, was.heap[was.hashOffset + pos + 1..was.hashOffset + |was.slots|];
    WriteIs(was.heap, at, cells);
    forall i | pos <= i < |was.slots| - 1 ensures CellMoved(was, now, i, 1) {
      CellWritten(was.heap, now.heap, at, cells, i - pos);
    }
  }

  lemma CellWritten(heap: seq<Byte>, heap': seq<Byte>, at: nat, cells: seq<Byte>, k: nat)
    requires k < |cells| && at + 1 + |cells| <= |heap| && cells == heap[at + 1..at + 1 + |cells|] && heap' == Write(heap, at, cells)
    ensures |heap'| == |heap| && heap'[at + k] == heap[at + k + 1]
  {
    WrittenAt(heap, at, cells, k);
  }
}
