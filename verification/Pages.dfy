/** The slotted page BTreeNode: slots grow from the front, fences, keys and payloads from the back. */
module Pages {
  import opened Bytes
  import opened Heads
  import opened Layout
  import opened Nodes
  import opened Images
  import opened Hints
  import opened Separators
  import opened Scans

  const NOSLOT := Slot(0, 0, 0, 0)

  datatype InsertResult =
    | Stored      // insert returned true
    | NoSpace     // insert returned false
    | KeyExists   // insert called abort()

  /** now is es followed by the first i entries of src. */
  ghost predicate Copied(now: seq<Entry>, es: seq<Entry>, src: seq<Entry>, i: nat) {
    forall want | IsCopied(want, es, src, i) :: now == want
  }

  ghost predicate IsCopied(now: seq<Entry>, es: seq<Entry>, src: seq<Entry>, i: nat) {
    i <= |src| && now == es + src[..i]
  }

  lemma CopiedIs(now: seq<Entry>, es: seq<Entry>, src: seq<Entry>, i: nat)
    requires i <= |src|
    ensures Copied(now, es, src, i) <==> now == es + src[..i]
  {
    assert IsCopied(es + src[..i], es, src, i);
  }

  lemma CopiedNext(now: seq<Entry>, es: seq<Entry>, src: seq<Entry>, i: nat)
    requires i < |src| && Copied(now, es, src, i)
    ensures Copied(now + [src[i]], es, src, i + 1)
  {
    CopiedIs(now, es, src, i);
    CopiedIs(now + [src[i]], es, src, i + 1);
    assert es + src[..i] + [src[i]] == es + src[..i + 1];
  }

  lemma CopiedEnds(now: seq<Entry>, es: seq<Entry>, src: seq<Entry>)
    ensures Copied(es, es, src, 0)
    ensures Copied(now, es, src, |src|) <==> now == es + src
  {
    CopiedIs(es, es, src, 0);
    CopiedIs(now, es, src, |src|);
    assert src[..|src|] == src && es + src[..0] == es;
  }

  class BTreeNode {
    var isLeaf: bool
    var count: nat
    var spaceUsed: nat
    var dataOffset: nat
    var upper: Address
    var lowerFence: Fence
    var upperFence: Fence
    var prefixLength: nat
    var hint: seq<nat>
    /** The slot array; the first count slots are in use. */
    var slot: seq<Slot>
    /** The page's bytes; those from dataOffset on are in use. */
    var heap: seq<Byte>

    /** What the page stands for. */
    ghost var lowerKey: Key
    ghost var upperKey: Key
    ghost var entries: seq<Entry>

    ghost function ImageOf(n: nat): Image
      reads this
    {
      Image(isLeaf, spaceUsed, dataOffset, lowerFence, upperFence, prefixLength,
            if n <= |slot| then slot[..n] else slot, heap, lowerKey, upperKey, entries)
    }

    /** Page layout with the first n slots in use. */
    ghost predicate LayoutOf(n: nat)
      reads this
    {
      |slot| == SlotCapacity(isLeaf) && n <= |slot| && ImageOf(n).Ok()
    }

    ghost predicate Valid()
      reads this
    {
      LayoutOf(count) && HintsFor(hint, ImageOf(count).slots)
    }

    ghost function View(): Node
      reads this
    {
      Node(isLeaf, lowerKey, upperKey, entries, upper)
    }

    /** BTreeNode::init: an empty page with empty fences. */
    constructor (isLeaf: bool)
      ensures Valid() && View() == Node(isLeaf, [], [], [], 0)
      ensures count == 0 && spaceUsed == 0 && dataOffset == PageSize(isLeaf)
    {
      this.isLeaf := isLeaf;
      count, spaceUsed, dataOffset, prefixLength := 0, 0, PageSize(isLeaf), 0;
      upper := 0;
      lowerFence, upperFence := Fence(0, 0), Fence(0, 0);
      hint := seq(HINTS, _ => 0);
      slot := seq(SlotCapacity(isLeaf), _ => NOSLOT);
      heap := seq(PageSize(isLeaf), _ => 0);
      lowerKey, upperKey, entries := [], [], [];
      new;
      forall c: Clause ensures ImageOf(0).Keeps(c) {}
    }

    // ---- storing bytes ----

    /** Takes space below everything else for a key without its prefix and a payload, copies them there
        and fills in the slot. */
    method StoreBytes(slotId: nat, stored: Key, payload: seq<Byte>)
      requires slotId < |slot| && |stored| + |payload| <= dataOffset <= |heap|
      modifies this`slot, this`heap, this`dataOffset, this`spaceUsed
      ensures Stores(old(slot), old(heap), old(dataOffset), old(spaceUsed), slot, heap, dataOffset, spaceUsed,
                     slotId, stored, payload)
    {
      var space := |stored| + |payload|;
      dataOffset := dataOffset - space;
      spaceUsed := spaceUsed + space;
      slot := slot[slotId := Slot(dataOffset, |stored|, |payload|, Head(stored))];
      heap := Write(heap, dataOffset, stored + payload);
    }

    /** Takes the space for a fence below everything else and copies it there. */
    method InsertFence(key: Key) returns (f: Fence)
      requires |key| <= dataOffset <= |heap|
      modifies this`heap, this`dataOffset, this`spaceUsed
      ensures f == Fence(dataOffset, |key|)
      ensures dataOffset == old(dataOffset) - |key| && spaceUsed == old(spaceUsed) + |key|
      ensures |heap| == |old(heap)| && heap[old(dataOffset)..] == old(heap[dataOffset..])
      ensures Holds(heap, dataOffset, dataOffset, key)
    {
      dataOffset := dataOffset - |key|;
      spaceUsed := spaceUsed + |key|;
      f := Fence(dataOffset, |key|);
      heap := Write(heap, dataOffset, key);
    }

    method InsertFences(lower: Key, upper: Key)
      requires |lower| + |upper| <= dataOffset == |heap|
      modifies this`lowerFence, this`upperFence, this`heap, this`dataOffset, this`spaceUsed
      ensures |heap| == |old(heap)| == dataOffset + |upper| + |lower| && spaceUsed == old(spaceUsed) + |lower| + |upper|
      ensures lowerFence == Fence(dataOffset + |upper|, |lower|) && upperFence == Fence(dataOffset, |upper|)
      ensures Holds(heap, dataOffset, lowerFence.offset, lower) && Holds(heap, dataOffset, upperFence.offset, upper)
    {
      lowerFence := InsertFence(lower);
      ghost var heap1, end := heap, dataOffset;
      upperFence := InsertFence(upper);
      HoldsUnchanged(heap1, heap, end, dataOffset, end, lower);
    }

    /** Fences of a page that is still empty; the common prefix of the two becomes the page's prefix. */
    method SetFences(lower: Key, upper: Key)
      requires LayoutOf(0) && spaceUsed == 0 && dataOffset == PageSize(isLeaf)
      requires sizes.header + |lower| + |upper| <= PageSize(isLeaf)
      modifies this`lowerFence, this`upperFence, this`prefixLength, this`heap, this`dataOffset, this`spaceUsed, this`lowerKey, this`upperKey
      ensures LayoutOf(0) && lowerKey == lower && upperKey == upper
      ensures spaceUsed == |lower| + |upper| && spaceUsed + dataOffset == PageSize(isLeaf)
    {
      Basics(ImageOf(0));
      assert slot[..0] == [];
      InsertFences(lower, upper);
      prefixLength := MatchingBytes(lower, upper);
      lowerKey, upperKey := lower, upper;
      FreshOk(ImageOf(0));
    }

    // ---- hints ----

    method MakeHint()
      requires count <= |slot| && 1 <= |slot|
      modifies this`hint
      ensures HintsFor(hint, slot[..count])
    {
      var dist := Stride(count);
      ghost var live := slot[..count];
      hint := seq(HINTS, _ => 0);
      for i := 0 to HINTS
        invariant |hint| == HINTS
        invariant forall j | 0 <= j < i :: HintFor(hint[j], live, j)
      {
        if count > 0 { StrideIndex(count, i + 1); }
        hint := hint[i := slot[dist * (i + 1)].head];
      }
    }

    /** After an insert at slotId only the hints that may have changed are rewritten. */
    method UpdateHint(slotId: nat)
      requires 0 <= slotId < count <= |slot|
      requires HintsFor(hint, slot[..slotId] + slot[slotId + 1..count])
      modifies this`hint
      ensures HintsFor(hint, slot[..count])
    {
      ghost var was := slot[..slotId] + slot[slotId + 1..count];
      var dist := Stride(count);
      var begin := 0;
      if count > HINTS * 2 + 1 && (count - 1) / (HINTS + 1) == dist && slotId / dist > 1 {
        begin := slotId / dist - 1;
      }
      forall j | 0 <= j < begin && j < HINTS
        ensures HintFor(hint[j], slot[..count], j)
      {
        HintKept(hint[j], was, slot[..count], slotId, j);
      }
      var i := begin;
      while i < HINTS
        invariant begin <= i && |hint| == HINTS
        invariant forall j | 0 <= j < i && j < HINTS :: HintFor(hint[j], slot[..count], j)
      {
        StrideIndex(count, i + 1);
        hint := hint[i := slot[dist * (i + 1)].head];
        i := i + 1;
      }
    }

    /** Narrows the search to the slots between two hints. */
    method SearchHint(keyHead: nat, lowerIn: nat, upperIn: nat) returns (lower: nat, upper: nat)
      requires count <= |slot| && lowerIn == 0 && upperIn == count
      requires HintsFor(hint, slot[..count]) && HeadsSorted(slot[..count])
      ensures lower <= upper <= count
      ensures lower > 0 ==> lower < count && slot[lower].head < keyHead
      ensures upper < count ==> slot[upper].head > keyHead
    {
      lower, upper := lowerIn, upperIn;
      if count > HINTS * 2 {
        var dist := upper / (HINTS + 1);
        var pos := 0;
        while pos < HINTS && hint[pos] < keyHead
          invariant pos <= HINTS
          invariant pos > 0 ==> hint[pos - 1] < keyHead
        {
          pos := pos + 1;
        }
        var pos2 := pos;
        while pos2 < HINTS && hint[pos2] == keyHead
          invariant pos <= pos2 <= HINTS
        {
          pos2 := pos2 + 1;
        }
        lower := dist * pos;
        if pos2 < HINTS {
          upper := dist * (pos2 + 1);
        }
        HintWindow(hint, slot[..count], keyHead, pos, pos2);
      }
    }

    // ---- search ----

    /** The key starts with the page's prefix. */
    ghost predicate PrefixMatches(key: Key)
      reads this
    {
      FencePrefix(lowerKey, upperKey) <= key
    }

    /** The bytes of a slot's key, without the prefix. */
    function GetKey(slotId: nat): Key
      requires slotId < |slot| && slot[slotId].offset + slot[slotId].keyLen <= |heap|
      reads this
    {
      heap[slot[slotId].offset..slot[slotId].offset + slot[slotId].keyLen]
    }

    function GetPayload(slotId: nat): seq<Byte>
      requires slotId < |slot| && slot[slotId].offset + slot[slotId].keyLen + slot[slotId].payloadLen <= |heap|
      reads this
    {
      heap[slot[slotId].offset + slot[slotId].keyLen..slot[slotId].offset + slot[slotId].keyLen + slot[slotId].payloadLen]
    }

    /** The stored bytes of a slot are the entry's key without the prefix and its payload. */
    lemma SlotIsEntry(i: nat)
      requires LayoutOf(count) && i < count
      ensures |entries| == count && |ImageOf(count).Prefix()| == prefixLength
      ensures slot[i].offset + slot[i].keyLen + slot[i].payloadLen <= |heap|
      ensures entries[i].key == ImageOf(count).Prefix() + GetKey(i) && entries[i].payload == GetPayload(i)
      ensures slot[i].head == Head(GetKey(i)) && slot[i].keyLen == |GetKey(i)| && slot[i].payloadLen == |GetPayload(i)|
    {
      SlotAt(ImageOf(count), i);
      Basics(ImageOf(count));
      assert entries[i].key == ImageOf(count).Prefix() + entries[i].key[prefixLength..];
    }

    /** Comparing what is stored decides the order of the full keys. */
    lemma StoredOrder(key: Key, i: nat)
      requires LayoutOf(count) && i < count && PrefixMatches(key)
      ensures |entries| == count && prefixLength <= |key|
      ensures slot[i].offset + slot[i].keyLen <= |heap|
      ensures Less(key[prefixLength..], GetKey(i)) <==> Less(key, entries[i].key)
      ensures Less(GetKey(i), key[prefixLength..]) <==> Less(entries[i].key, key)
      ensures key[prefixLength..] == GetKey(i) <==> key == entries[i].key
      ensures Head(key[prefixLength..]) < slot[i].head ==> Less(key, entries[i].key)
      ensures Head(key[prefixLength..]) > slot[i].head ==> Less(entries[i].key, key)
      ensures slot[i].keyLen == |GetKey(i)|
    {
      SlotIsEntry(i);
      PrefixIsShared(ImageOf(count));
      var p := ImageOf(count).Prefix();
      assert key == p + key[prefixLength..];
      PrefixShift(p, key[prefixLength..], GetKey(i));
      PrefixShift(p, GetKey(i), key[prefixLength..]);
      if Head(key[prefixLength..]) < slot[i].head {
        HeadDecides(key[prefixLength..], GetKey(i));
      } else if Head(key[prefixLength..]) > slot[i].head {
        HeadDecides(GetKey(i), key[prefixLength..]);
      }
      assert (p + GetKey(i))[|p|..] == GetKey(i);
    }

    /** Sign of the comparison of a key with the one at mid: by head, then by stored bytes, then by length. */
    function CompareAt(fullKey: Key, mid: nat): (c: int)
      requires LayoutOf(count) && mid < count && PrefixMatches(fullKey)
      reads this
      ensures |entries| == count
      ensures c < 0 ==> Less(fullKey, entries[mid].key)
      ensures c > 0 ==> Less(entries[mid].key, fullKey)
      ensures c == 0 ==> fullKey == entries[mid].key
    {
      StoredOrder(fullKey, mid);
      var key := fullKey[prefixLength..];
      if Head(key) < slot[mid].head then -1
      else if Head(key) > slot[mid].head then 1
      else
        var cmp := Memcmp(key, GetKey(mid));
        if cmp != 0 then cmp else |key| - slot[mid].keyLen
    }

    /** The slots the hints leave to search. */
    method HintedRange(fullKey: Key) returns (lower: nat, upper: nat)
      requires Valid() && Sorted(entries) && PrefixMatches(fullKey)
      ensures Brackets(entries, fullKey, lower, upper)
    {
      Basics(ImageOf(count));
      HeadsAreSorted(ImageOf(count));
      lower, upper := SearchHint(Head(fullKey[prefixLength..]), 0, count);
      if upper < count {
        StoredOrder(fullKey, upper);
        BracketsLess(entries, fullKey, 0, count, upper);
      }
      if lower > 0 {
        StoredOrder(fullKey, lower);
        if lower < upper {
          BracketsGreater(entries, fullKey, 0, upper, lower);
        } else {
          AllBelow(entries, fullKey, lower);
        }
      }
    }

    /** Lower bound by hint, head and finally stored bytes; it equals the plain lower bound on full keys. */
    method LowerBound(fullKey: Key) returns (pos: nat, found: bool)
      requires Valid() && Sorted(entries) && PrefixMatches(fullKey)
      ensures |entries| == count && IsLowerBound(entries, fullKey, pos)
      ensures found <==> pos < count && entries[pos].key == fullKey
    {
      Basics(ImageOf(count));
      var lower, upper := HintedRange(fullKey);
      while lower < upper
        invariant 0 <= lower <= upper <= count
        invariant Brackets(entries, fullKey, lower, upper)
      {
        var mid := (upper - lower) / 2 + lower;
        var c := CompareAt(fullKey, mid);
        if c < 0 {
          BracketsLess(entries, fullKey, lower, upper, mid);
          upper := mid;
        } else if c > 0 {
          BracketsGreater(entries, fullKey, lower, upper, mid);
          lower := mid + 1;
        } else {
          BracketsFound(entries, fullKey, mid);
          return mid, true;
        }
      }
      pos, found := lower, false;
      BracketsClosed(entries, fullKey, lower);
    }

    // ---- copying ----

    /** What copyKeyValueRange stores for slot i in a page with another prefix: when that prefix is at least
        as long as this page's, the rest of the stored key; otherwise the full key is rebuilt first and the
        shorter prefix cut off. */
    method PartsFor(i: nat, otherLength: nat, ghost otherPrefix: Key) returns (stored: Key, payload: seq<Byte>)
      requires LayoutOf(count) && i < count && |entries| == count
      requires |otherPrefix| == otherLength && otherPrefix <= entries[i].key
      ensures entries[i].key == otherPrefix + stored && payload == entries[i].payload
    {
      SlotIsEntry(i);
      payload := GetPayload(i);
      if prefixLength <= otherLength {
        stored := GetKey(i)[otherLength - prefixLength..];
      } else {
        Basics(ImageOf(count));
        assert ImageOf(count).Keeps(FencesInPage);
        var prefix := heap[lowerFence.offset..lowerFence.offset + lowerFence.length][..prefixLength];
        stored := (prefix + GetKey(i))[otherLength..];
      }
    }

    /** Stores a key without its prefix and a payload as entry n of a page under construction. */
    method AppendEntry(n: nat, stored: Key, payload: seq<Byte>, ghost key: Key)
      requires LayoutOf(n) && n < |slot| && key == ImageOf(n).Prefix() + stored
      requires sizes.header + SlotBytes(n + 1) + |stored| + |payload| <= dataOffset
      modifies this`slot, this`heap, this`dataOffset, this`spaceUsed, this`entries
      ensures LayoutOf(n + 1) && entries == old(entries) + [Entry(key, payload)]
      ensures dataOffset + |stored| + |payload| == old(dataOffset) && dataOffset + spaceUsed == old(dataOffset + spaceUsed)
    {
      ghost var was := ImageOf(n);
      Basics(was);
      StoreBytes(n, stored, payload);
      entries := entries + [Entry(key, payload)];
      StoresAtEnd(was, ImageOf(n + 1), old(slot), slot, n, Entry(key, payload), stored);
    }

    /** Stores the entry at srcSlot as dst's entry n. */
    method CopyOne(srcSlot: nat, dst: BTreeNode, n: nat)
      requires dst != this && LayoutOf(count) && srcSlot < count && |entries| == count
      requires dst.LayoutOf(n) && n < |dst.slot|
      requires dst.ImageOf(n).Prefix() <= entries[srcSlot].key
      requires sizes.header + SlotBytes(n + 1)
             + |entries[srcSlot].key| - dst.prefixLength + |entries[srcSlot].payload| <= dst.dataOffset
      modifies dst`slot, dst`heap, dst`dataOffset, dst`spaceUsed, dst`entries
      ensures dst.LayoutOf(n + 1) && dst.entries == old(dst.entries) + [entries[srcSlot]]
      ensures dst.dataOffset + |entries[srcSlot].key| - dst.prefixLength + |entries[srcSlot].payload| == old(dst.dataOffset)
      ensures dst.dataOffset + dst.spaceUsed == old(dst.dataOffset + dst.spaceUsed)
    {
      Basics(dst.ImageOf(n));
      var stored, payload := PartsFor(srcSlot, dst.prefixLength, dst.ImageOf(n).Prefix());
      dst.AppendEntry(n, stored, payload, entries[srcSlot].key);
    }

    /** This page, under construction, had entries es and has got the first i of src; there is room for the rest. */
    ghost predicate Receiving(es: seq<Entry>, src: seq<Entry>, i: nat, total: nat)
      reads this
    {
      && i <= |src| && LayoutOf(|es| + i) && Copied(entries, es, src, i)
      && AllStartWith(src, ImageOf(|es| + i).Prefix())
      && RoomFor(src, i, prefixLength, |es| + |src|, dataOffset)
      && dataOffset + spaceUsed == total
    }

    /** Appends the next entry of src to this page, under construction. */
    method ReceiveNext(stored: Key, payload: seq<Byte>, i: nat, dstSlot: nat, ghost es: seq<Entry>, ghost src: seq<Entry>, ghost total: nat)
      requires i < |src| && dstSlot == |es| + i && Receiving(es, src, i, total)
      requires src[i] == Entry(ImageOf(dstSlot).Prefix() + stored, payload)
      modifies this`slot, this`heap, this`dataOffset, this`spaceUsed, this`entries
      ensures Receiving(es, src, i + 1, total)
    {
      Basics(ImageOf(dstSlot));
      RoomForNext(src, i, ImageOf(dstSlot).Prefix(), dataOffset, |es|, isLeaf);
      CopiedNext(entries, es, src, i);
      AppendEntry(dstSlot, stored, payload, src[i].key);
    }

    /** A page that has received everything. */
    method Finish(n: nat, child: Address, ghost src: seq<Entry>, ghost total: nat)
      requires Receiving([], src, n, total) && n == |src|
      modifies this`count, this`upper, this`hint
      ensures Valid() && count == n && View() == Node(isLeaf, lowerKey, upperKey, src, child)
    {
      CopiedEnds(entries, [], src);
      assert [] + src == src;
      count, upper := n, child;
      SlotCapacityPositive(isLeaf);
      MakeHint();
    }

    /** One step of the copy. */
    method CopyNext(srcSlot: nat, dst: BTreeNode, i: nat, ghost es: seq<Entry>, ghost src: seq<Entry>, dstSlot: nat, ghost total: nat)
      requires dst != this && LayoutOf(count) && srcSlot < count == |entries|
      requires i < |src| && src[i] == entries[srcSlot] && dstSlot == |es| + i
      requires dst.Receiving(es, src, i, total)
      modifies dst`slot, dst`heap, dst`dataOffset, dst`spaceUsed, dst`entries
      ensures dst.Receiving(es, src, i + 1, total)
    {
      Basics(dst.ImageOf(dstSlot));
      RoomForNext(src, i, dst.ImageOf(dstSlot).Prefix(), dst.dataOffset, |es|, dst.isLeaf);
      CopiedNext(dst.entries, es, src, i);
      CopyOne(srcSlot, dst, dstSlot);
    }

    method CopyAll(dst: BTreeNode, dstSlot: nat, srcSlot: nat, srcCount: nat, ghost es: seq<Entry>, ghost src: seq<Entry>, ghost total: nat)
      requires dst != this && LayoutOf(count) && srcSlot + srcCount <= count == |entries|
      requires |src| == srcCount && HasRange(entries, srcSlot, src) && dstSlot == |es|
      requires dst.Receiving(es, src, 0, total)
      modifies dst`slot, dst`heap, dst`dataOffset, dst`spaceUsed, dst`entries
      ensures dst.Receiving(es, src, srcCount, total)
    {
      var i := 0;
      while i < srcCount
        invariant 0 <= i <= srcCount
        invariant dst.Receiving(es, src, i, total)
      {
        assert RangeAt(entries, srcSlot, src, i);
        CopyNext(srcSlot + i, dst, i, es, src, dstSlot + i, total);
        i := i + 1;
      }
    }

    /** Appends srcCount entries of this page to dst. */
    method CopyKeyValueRange(dst: BTreeNode, dstSlot: nat, srcSlot: nat, srcCount: nat, ghost src: seq<Entry>)
      requires dst != this && LayoutOf(count) && srcSlot + srcCount <= count == |entries|
      requires |src| == srcCount && HasRange(entries, srcSlot, src)
      requires dst.LayoutOf(dst.count) && dstSlot == dst.count
      requires AllStartWith(src, dst.ImageOf(dst.count).Prefix())
      requires RoomFor(src, 0, dst.prefixLength, dstSlot + srcCount, dst.dataOffset)
      modifies dst`slot, dst`heap, dst`dataOffset, dst`spaceUsed, dst`entries, dst`count
      ensures dst.LayoutOf(dst.count) && dst.count == old(dst.count) + srcCount
      ensures dst.entries == old(dst.entries) + src
      ensures dst.dataOffset + dst.spaceUsed == old(dst.dataOffset + dst.spaceUsed)
    {
      ghost var es := dst.entries;
      Basics(dst.ImageOf(dst.count));
      CopiedEnds(es, es, src);
      CopyAll(dst, dstSlot, srcSlot, srcCount, es, src, dst.dataOffset + dst.spaceUsed);
      CopiedEnds(dst.entries, es, src);
      dst.count := dst.count + srcCount;
    }

    method CopyHeader(other: BTreeNode)
      requires other != this
      modifies this`isLeaf, this`count, this`spaceUsed, this`dataOffset, this`upper, this`lowerFence, this`upperFence, this`prefixLength
      ensures isLeaf == other.isLeaf && count == other.count && spaceUsed == other.spaceUsed && dataOffset == other.dataOffset
      ensures upper == other.upper && lowerFence == other.lowerFence && upperFence == other.upperFence && prefixLength == other.prefixLength
    {
      isLeaf, count, spaceUsed, dataOffset := other.isLeaf, other.count, other.spaceUsed, other.dataOffset;
      upper, lowerFence, upperFence, prefixLength := other.upper, other.lowerFence, other.upperFence, other.prefixLength;
    }

    /** memcpy of a whole page. */
    method CopyFrom(other: BTreeNode)
      requires other != this
      modifies this
      ensures isLeaf == other.isLeaf && count == other.count && spaceUsed == other.spaceUsed && dataOffset == other.dataOffset
      ensures upper == other.upper && lowerFence == other.lowerFence && upperFence == other.upperFence
      ensures prefixLength == other.prefixLength && hint == other.hint && slot == other.slot && heap == other.heap
      ensures lowerKey == other.lowerKey && upperKey == other.upperKey && entries == other.entries
    {
      CopyHeader(other);
      hint, slot, heap := other.hint, other.slot, other.heap;
      lowerKey, upperKey, entries := other.lowerKey, other.upperKey, other.entries;
    }

    // ---- space ----

    function FreeSpace(): int
      reads this
    {
      dataOffset - (sizes.header + SlotBytes(count))
    }

    function FreeSpaceAfterCompaction(): int
      reads this
    {
      PageSize(isLeaf) - (sizes.header + SlotBytes(count)) - spaceUsed
    }

    /** The space accounting is exact: spaceUsed and the free space after compaction are those of the contents. */
    lemma SpaceIsExact()
      requires LayoutOf(count)
      ensures spaceUsed == SpaceUsed(View())
      ensures FreeSpaceAfterCompaction() == FreeAfterCompaction(View())
      ensures 0 <= FreeSpace() <= FreeSpaceAfterCompaction()
    {
      Basics(ImageOf(count));
      assert ImageOf(count).Keeps(SpaceCounted);
    }

    /** init and setFences of a page about to be filled. */
    static method NewPage(isLeaf: bool, lower: Key, upper: Key) returns (p: BTreeNode)
      requires sizes.header + |lower| + |upper| <= PageSize(isLeaf)
      ensures fresh(p) && p.LayoutOf(0) && p.count == 0 && p.View() == Node(isLeaf, lower, upper, [], 0)
      ensures p.dataOffset == PageSize(isLeaf) - |lower| - |upper| && p.spaceUsed == |lower| + |upper|
      ensures p.prefixLength == CommonPrefix(lower, upper) && p.ImageOf(0).Prefix() == FencePrefix(lower, upper)
    {
      p := new BTreeNode(isLeaf);
      p.SetFences(lower, upper);
      PrefixIsShared(p.ImageOf(0));
      Basics(p.ImageOf(0));
    }

    /** An empty page with those fences, ready to get entries that start with their common prefix. */
    static method PageFor(isLeaf: bool, lower: Key, upper: Key, ghost src: seq<Entry>) returns (p: BTreeNode)
      requires sizes.header + |lower| + |upper| <= PageSize(isLeaf) && AllStartWith(src, FencePrefix(lower, upper))
      requires RoomFor(src, 0, CommonPrefix(lower, upper), |src|, PageSize(isLeaf) - |lower| - |upper|)
      ensures fresh(p) && p.isLeaf == isLeaf && p.lowerKey == lower && p.upperKey == upper
      ensures p.Receiving([], src, 0, PageSize(isLeaf))
    {
      CopiedEnds([], [], src);
      p := NewPage(isLeaf, lower, upper);
    }

    /** The bytes of the fences. */
    method GetFences() returns (lower: Key, upper: Key)
      requires LayoutOf(count)
      ensures lower == lowerKey && upper == upperKey
    {
      assert ImageOf(count).Keeps(FencesInPage);
      lower := heap[lowerFence.offset..lowerFence.offset + lowerFence.length];
      upper := heap[upperFence.offset..upperFence.offset + upperFence.length];
    }

    /** A new page with the contents of this one and no garbage. */
    method Rebuilt() returns (tmp: BTreeNode)
      requires LayoutOf(count)
      ensures fresh(tmp) && tmp.LayoutOf(tmp.count) && tmp.View() == View() && tmp.count == count
      ensures tmp.spaceUsed == spaceUsed && tmp.spaceUsed + tmp.dataOffset == PageSize(isLeaf)
    {
      tmp := CopiedPage();
      tmp.upper := upper;
      SpaceIsExact();
      tmp.SpaceIsExact();
    }

    method CopiedPage() returns (tmp: BTreeNode)
      requires LayoutOf(count)
      ensures fresh(tmp) && tmp.LayoutOf(tmp.count) && tmp.View() == View().(upperChild := 0) && tmp.count == count
      ensures tmp.spaceUsed + tmp.dataOffset == PageSize(isLeaf)
    {
      RoomToRebuild(ImageOf(count));
      var lo, up := GetFences();
      tmp := NewPage(isLeaf, lo, up);
      CopyKeyValueRange(tmp, 0, 0, count, entries);
    }

    /** Rewrites the page without garbage: same contents, all free space in one piece. */
    method Compactify()
      requires Valid()
      modifies this
      ensures Valid() && View() == old(View()) && count == old(count)
      ensures FreeSpace() == FreeSpaceAfterCompaction() == old(FreeSpaceAfterCompaction())
    {
      var tmp := Rebuilt();
      Overwrite(tmp);
    }

    method RequestSpaceFor(spaceNeeded: int) returns (ok: bool)
      requires Valid()
      modifies this
      ensures Valid() && View() == old(View()) && count == old(count)
      ensures ok <==> spaceNeeded <= FreeAfterCompaction(View())
      ensures ok ==> spaceNeeded <= FreeSpace()
    {
      SpaceIsExact();
      if spaceNeeded <= FreeSpace() {
        return true;
      }
      if spaceNeeded <= FreeSpaceAfterCompaction() {
        Compactify();
        SpaceIsExact();
        return true;
      }
      return false;
    }

    // ---- insert and remove ----

    /** Opens a gap in the slot array and stores the entry there. */
    method OpenSlot(slotId: nat, stored: Key, payload: seq<Byte>, ghost key: Key)
      requires LayoutOf(count) && slotId <= count == |entries|
      requires key == ImageOf(count).Prefix() + stored
      requires sizes.slot + |stored| + |payload| <= FreeSpace()
      modifies this`slot, this`heap, this`dataOffset, this`spaceUsed, this`entries, this`count
      ensures LayoutOf(count) && count == old(count) + 1
      ensures entries == Inserted(old(entries), slotId, Entry(key, payload))
      ensures |slot| == |old(slot)| && slotId < |slot| && old(count) < |slot|
      ensures slot == MovedUp(old(slot), slotId, old(count))[slotId := slot[slotId]]
    {
      ghost var was, slots, n := ImageOf(count), slot, count;
      Basics(was);
      SlotFits(isLeaf, count + 1);
      slot := MovedUp(slot, slotId, count);
      StoreBytes(slotId, stored, payload);
      entries := Inserted(entries, slotId, Entry(key, payload));
      count := count + 1;
      StoresAtPos(was, ImageOf(count), slots, slot, n, slotId, Entry(key, payload), stored);
    }

    method CutPrefix(key: Key) returns (stored: Key)
      requires LayoutOf(count) && PrefixMatches(key)
      ensures key == ImageOf(count).Prefix() + stored
    {
      PrefixIsShared(ImageOf(count));
      stored := key[prefixLength..];
    }

    method InsertAt(slotId: nat, key: Key, payload: seq<Byte>)
      requires Valid() && slotId <= count == |entries| && PrefixMatches(key)
      requires SpaceNeeded(View(), |key|, |payload|) <= FreeSpace()
      modifies this
      ensures Valid() && count == old(count) + 1
      ensures View() == old(View()).(entries := Inserted(old(entries), slotId, Entry(key, payload)))
    {
      var stored := CutPrefix(key);
      Basics(ImageOf(count));
      OpenSlot(slotId, stored, payload, key);
      MovedUpInserts(old(slot), slotId, old(count), slot[slotId]);
      UpdateHint(slotId);
    }

    method Insert(key: Key, payload: seq<Byte>) returns (r: InsertResult)
      requires Valid() && Sorted(entries) && PrefixMatches(key)
      modifies this
      ensures Valid()
      ensures r.NoSpace? <==> SpaceNeeded(old(View()), |key|, |payload|) > FreeAfterCompaction(old(View()))
      ensures r.KeyExists? ==> exists i :: 0 <= i < |entries| && entries[i].key == key
      ensures r.Stored? ==> forall i | 0 <= i < |old(entries)| :: old(entries)[i].key != key
      ensures View() == if r.Stored? then InsertEntry(old(View()), Entry(key, payload)) else old(View())
    {
      Basics(ImageOf(count));
      var ok := RequestSpaceFor(sizes.slot + |key| - prefixLength + |payload|);
      if !ok {
        return NoSpace;
      }
      var slotId, found := LowerBound(key);
      if found {
        return KeyExists;
      }
      LowerBoundUnique(entries, key, slotId, Nodes.LowerBound(entries, key));
      AbsentAt(entries, key, slotId);
      InsertAt(slotId, key, payload);
      return Stored;
    }

    /** Closes the gap over a slot; its bytes stay behind unused. */
    method CloseSlot(slotId: nat)
      requires LayoutOf(count) && slotId < count == |entries|
      modifies this`slot, this`spaceUsed, this`entries, this`count
      ensures LayoutOf(count) && count == old(count) - 1
      ensures entries == Removed(old(entries), slotId)
    {
      ghost var was, slots := ImageOf(count), slot;
      Basics(was);
      EntryFits(was, slotId);
      MovedDownRemoves(slots, slotId, count);
      spaceUsed := spaceUsed - (slot[slotId].keyLen + slot[slotId].payloadLen);
      slot := MovedDown(slot, slotId, count);
      count := count - 1;
      entries := Removed(entries, slotId);
      assert ImageOf(count).slots == Removed(was.slots, slotId);
      RemovedOk(was, ImageOf(count), slotId);
    }

    method RemoveSlot(slotId: nat)
      requires Valid() && slotId < count == |entries|
      modifies this
      ensures Valid() && count == old(count) - 1
      ensures View() == RemoveAt(old(View()), slotId)
    {
      CloseSlot(slotId);
      SlotCapacityPositive(isLeaf);
      MakeHint();
    }

    method Remove(key: Key) returns (removed: bool)
      requires Valid() && Sorted(entries) && PrefixMatches(key)
      modifies this
      ensures Valid()
      ensures removed <==> exists i :: 0 <= i < |old(entries)| && old(entries)[i].key == key
      ensures removed ==> exists i ::
        (0 <= i < |old(entries)| && old(entries)[i].key == key && View() == RemoveAt(old(View()), i))
      ensures !removed ==> View() == old(View())
    {
      var slotId, found := LowerBound(key);
      if !found {
        AbsentAt(entries, key, slotId);
        return false;
      }
      RemoveSlot(slotId);
      return true;
    }

    // ---- merge ----

    /** Appends n entries of this page to one under construction with the fences of m. */
    method CopyInto(tmp: BTreeNode, from: nat, n: nat, ghost m: Node, ghost es: seq<Entry>, ghost src: seq<Entry>)
      requires tmp != this && LayoutOf(count) && from + n <= count && |src| == n
      requires tmp.LayoutOf(tmp.count) && tmp.View() == Node(m.isLeaf, m.lower, m.upper, es, 0)
      requires tmp.dataOffset + tmp.spaceUsed == PageSize(m.isLeaf) && tmp.count == |es|
      requires RoomIn(m, StoredSize(es, PrefixLength(m)), |es|, entries, from, src)
      modifies tmp
      ensures tmp.LayoutOf(tmp.count) && tmp.View() == Node(m.isLeaf, m.lower, m.upper, es + src, 0)
      ensures tmp.dataOffset + tmp.spaceUsed == PageSize(m.isLeaf) && tmp.count == |es| + n
    {
      Basics(ImageOf(count));
      tmp.SpaceIsExact();
      PrefixIsShared(tmp.ImageOf(tmp.count));
      CopyKeyValueRange(tmp, tmp.count, from, n, src);
    }

    /** This leaf's entries, then those of the leaf to its right, in a page with the outer fences. */
    method FillMerged(right: BTreeNode, tmp: BTreeNode, ghost m: Node)
      requires tmp != this && tmp != right && LayoutOf(count) && right.LayoutOf(right.count)
      requires RoomIn(m, 0, 0, entries, 0, entries)
      requires RoomIn(m, StoredSize(entries, PrefixLength(m)), |entries|, right.entries, 0, right.entries)
      requires tmp.LayoutOf(0) && tmp.count == 0 && tmp.View() == Node(m.isLeaf, m.lower, m.upper, [], 0)
      requires tmp.dataOffset + tmp.spaceUsed == PageSize(m.isLeaf)
      modifies tmp
      ensures tmp.LayoutOf(tmp.count) && tmp.View() == Node(m.isLeaf, m.lower, m.upper, entries + right.entries, 0)
    {
      Basics(ImageOf(count));
      Basics(right.ImageOf(right.count));
      CopyInto(tmp, 0, count, m, [], entries);
      assert [] + entries == entries;
      right.CopyInto(tmp, 0, right.count, m, entries, right.entries);
    }

    /** The space mergeNodes asks for, counting the fence between the leaves twice. */
    method MergeSpaceBound(right: BTreeNode, newPrefix: nat) returns (bound: int)
      requires LayoutOf(count) && right.LayoutOf(right.count) && isLeaf && right.isLeaf
      requires Ordered(View()) && Ordered(right.View()) && upperKey == right.lowerKey != []
      requires newPrefix == CommonPrefix(lowerKey, right.upperKey)
      ensures bound == PageSize(true) - FreeAfterCompaction(Merge(View(), right.View())) + |upperKey| + |right.lowerKey|
    {
      Basics(ImageOf(count));
      Basics(right.ImageOf(right.count));
      SpaceIsExact();
      right.SpaceIsExact();
      ghost var l, r := View(), right.View();
      MergeBound(l, r, newPrefix);
      var leftGrow := Growth(prefixLength, newPrefix, count);
      var rightGrow := Growth(right.prefixLength, newPrefix, right.count);
      bound := spaceUsed + right.spaceUsed + sizes.header + SlotBytes(count + right.count) + leftGrow + rightGrow;
    }

    /** The merged page, if mergeNodes finds it small enough. */
    method MergedPage(right: BTreeNode) returns (merged: bool, tmp: BTreeNode)
      requires this != right && LayoutOf(count) && right.LayoutOf(right.count) && isLeaf && right.isLeaf
      requires Ordered(View()) && Ordered(right.View()) && upperKey == right.lowerKey != []
      requires sizes.header + |lowerKey| + |right.upperKey| <= PageSize(true)
      ensures merged <==> |upperKey| + |right.lowerKey| <= FreeAfterCompaction(Merge(View(), right.View()))
      ensures fresh(tmp) && (merged ==> tmp.LayoutOf(tmp.count) && tmp.View() == Merge(View(), right.View()))
    {
      var lo, _ := GetFences();
      var _, up := right.GetFences();
      tmp := NewPage(true, lo, up);
      var bound := MergeSpaceBound(right, tmp.prefixLength);
      merged := bound <= PageSize(true);
      if merged {
        MergeRoom(View(), right.View());
        FillMerged(right, tmp, Merge(View(), right.View()));
      }
    }

    /** memcpy of a freshly filled page over this one. */
    method Overwrite(tmp: BTreeNode)
      requires tmp != this && tmp.LayoutOf(tmp.count)
      modifies this
      ensures Valid() && View() == tmp.View() && count == tmp.count && dataOffset == tmp.dataOffset && spaceUsed == tmp.spaceUsed
    {
      CopyFrom(tmp);
      SlotCapacityPositive(isLeaf);
      MakeHint();
    }

    /** Merges this leaf into the one to its right, whose entry in the parent survives; ours is removed. */
    method MergeNodes(slotId: nat, parent: BTreeNode, right: BTreeNode) returns (merged: bool)
      requires this != right && parent != this && parent != right
      requires Valid() && right.Valid() && parent.Valid() && isLeaf && right.isLeaf
      requires Ordered(View()) && Ordered(right.View()) && upperKey == right.lowerKey != []
      requires sizes.header + |lowerKey| + |right.upperKey| <= PageSize(true)
      requires slotId < parent.count == |parent.entries|
      modifies parent, right
      ensures right.Valid() && parent.Valid()
      ensures merged <==> |upperKey| + |old(right.lowerKey)| <= FreeAfterCompaction(Merge(View(), old(right.View())))
      ensures right.View() == if merged then Merge(View(), old(right.View())) else old(right.View())
      ensures parent.View() == if merged then RemoveAt(old(parent.View()), slotId) else old(parent.View())
    {
      var tmp;
      merged, tmp := MergedPage(right);
      if merged {
        parent.RemoveSlot(slotId);
        right.Overwrite(tmp);
      }
    }

    // ---- split ----

    /** Leading bytes two slots' stored keys share. */
    method SharedBytes(slotA: nat, slotB: nat) returns (n: nat)
      requires LayoutOf(count) && slotA < count == |entries| && slotB < count
      ensures prefixLength + n == CommonPrefix(entries[slotA].key, entries[slotB].key)
      ensures slot[slotA].keyLen + prefixLength == |entries[slotA].key|
    {
      SlotIsEntry(slotA);
      SlotIsEntry(slotB);
      PrefixShift(ImageOf(count).Prefix(), GetKey(slotA), GetKey(slotB));
      n := MatchingBytes(GetKey(slotA), GetKey(slotB));
    }

    /** Byte k of a slot's stored key. */
    function StoredByte(i: nat, k: nat): (b: Byte)
      requires LayoutOf(count) && i < count == |entries| && prefixLength + k < |entries[i].key|
      reads this
      ensures b == entries[i].key[prefixLength + k]
      ensures slot[i].keyLen + prefixLength == |entries[i].key|
    {
      SlotIsEntry(i);
      GetKey(i)[k]
    }

    method FindSeparator() returns (info: SeparatorInfo)
      requires LayoutOf(count) && Sorted(entries) && count > 1
      ensures Picked(View(), info)
    {
      Basics(ImageOf(count));
      if !isLeaf {
        var slotId := count / 2 - 1;
        SlotIsEntry(slotId);
        return SeparatorInfo(prefixLength + slot[slotId].keyLen, slotId, false);
      }
      info := FindLeafSeparator();
    }

    method FindLeafSeparator() returns (info: SeparatorInfo)
      requires LayoutOf(count) && Sorted(entries) && count == |entries| > 1
      ensures info.Source() < count && info.length <= |entries[info.Source()].key|
      ensures !info.isTruncated ==> info.length == |entries[info.slot].key|
      ensures ChosenInLeaf(entries, info) && PickedInLeaf(entries, info)
    {
      var lower := WindowLow(count);
      var upper := WindowHigh(count);
      var rangeCommonPrefix := SharedBytes(lower, upper);
      if slot[lower].keyLen == rangeCommonPrefix {
        FoundFirst(entries);
        return SeparatorInfo(prefixLength + rangeCommonPrefix, lower, false);
      }
      var i := FirstDifferent(lower, upper, rangeCommonPrefix);
      info := CutAfter(i, rangeCommonPrefix);
      FoundAt(entries, i, info);
    }

    /** The separator that ends with byte k of slot i's stored key. */
    method CutAfter(i: nat, k: nat) returns (info: SeparatorInfo)
      requires LayoutOf(count) && 0 < i < count == |entries| && prefixLength + k < |entries[i].key|
      ensures info == CutAt(entries, prefixLength + k, i) && info.length <= |entries[i].key| && info.Source() == i
    {
      SlotIsEntry(i);
      if slot[i].keyLen == k + 1 {
        info := SeparatorInfo(prefixLength + k + 1, i, false);
      } else {
        info := SeparatorInfo(prefixLength + k + 1, i - 1, true);
      }
    }

    /** The first slot of the window whose byte after the shared ones differs; the search always ends inside the window. */
    method FirstDifferent(lower: nat, upper: nat, c: nat) returns (i: nat)
      requires LayoutOf(count) && Sorted(entries) && lower <= upper < count == |entries|
      requires prefixLength + c == CommonPrefix(entries[lower].key, entries[upper].key) < |entries[lower].key|
      ensures lower < i <= upper && FirstDiffers(entries, lower, prefixLength + c, i)
    {
      InWindow(entries, lower, upper, upper);
      i := lower + 1;
      var first := StoredByte(lower, c);
      while true
        invariant lower < i <= upper
        invariant forall j | lower <= j < i :: prefixLength + c < |entries[j].key|
        invariant forall j | lower <= j < i :: entries[j].key[prefixLength + c] == entries[lower].key[prefixLength + c]
        decreases upper - i
      {
        InWindow(entries, lower, i, upper);
        if StoredByte(i, c) != first {
          return;
        }
        i := i + 1;
      }
    }

    /** The first len bytes of a slot's full key. */
    method RestoreKey(len: nat, index: nat) returns (key: Key)
      requires LayoutOf(count) && index < count == |entries| && prefixLength <= len <= |entries[index].key|
      ensures key == entries[index].key[..len]
    {
      SlotIsEntry(index);
      var prefix := GetPrefix();
      key := prefix + GetKey(index)[..len - prefixLength];
    }

    method GetPrefix() returns (prefix: Key)
      requires LayoutOf(count)
      ensures prefix == ImageOf(count).Prefix()
    {
      Basics(ImageOf(count));
      assert ImageOf(count).Keeps(FencesInPage);
      prefix := heap[lowerFence.offset..lowerFence.offset + lowerFence.length][..prefixLength];
    }

    method GetSep(info: SeparatorInfo) returns (sep: Key)
      requires LayoutOf(count) && Ordered(View()) && Chosen(View(), info) && info.slot < |entries|
      ensures sep == SepKey(entries, info)
    {
      Basics(ImageOf(count));
      SeparatorHasPrefix(View(), info);
      sep := RestoreKey(info.length, info.Source());
    }

    /** The child pointer in a slot of an inner page. */
    function GetChild(slotId: nat): (a: Address)
      requires LayoutOf(count) && slotId < count
      reads this
      ensures |entries| == count && a == DecodePtr(entries[slotId].payload)
    {
      SlotIsEntry(slotId);
      DecodePtr(GetPayload(slotId))
    }

    /** A fresh page holding a part of this page's entries between its own fences. */
    method HalfPage(lower: Key, upper: Key, from: nat, n: nat, ghost half: Node) returns (p: BTreeNode)
      requires LayoutOf(count) && from + n <= count == |entries| && Ordered(half) && Fits(half)
      requires half.isLeaf == isLeaf && half.lower == lower && half.upper == upper && half.entries == entries[from..from + n]
      ensures fresh(p) && p.LayoutOf(p.count) && p.count == n && p.View() == half.(upperChild := 0)
    {
      PartRoom(half, entries, from);
      p := NewPage(isLeaf, lower, upper);
      CopyInto(p, from, n, half, [], half.entries);
      assert [] + half.entries == half.entries;
    }

    method InsertChild(key: Key, child: Address) returns (ok: bool)
      requires Valid() && Sorted(entries) && PrefixMatches(key)
      requires SpaceNeeded(View(), |key|, CHILD_BYTES) <= FreeAfterCompaction(View())
      modifies this
      ensures Valid()
      ensures ok <==> forall i | 0 <= i < |old(entries)| :: old(entries)[i].key != key
      ensures View() == if ok then InsertEntry(old(View()), Entry(key, EncodePtr(child))) else old(View())
    {
      var r := Insert(key, EncodePtr(child));
      ok := r == Stored;
    }

    /** The left half in a fresh page. */
    method LeftHalf(sepSlot: nat, sepKey: Key) returns (nodeLeft: BTreeNode)
      requires LayoutOf(count) && sepSlot < count == |entries|
      requires Ordered(SplitLeft(View(), sepSlot, sepKey)) && Fits(SplitLeft(View(), sepSlot, sepKey))
      ensures fresh(nodeLeft) && nodeLeft.Valid() && nodeLeft.View() == SplitLeft(View(), sepSlot, sepKey)
    {
      var lo, _ := GetFences();
      var n := if isLeaf then sepSlot + 1 else sepSlot;
      nodeLeft := HalfPage(lo, sepKey, 0, n, SplitLeft(View(), sepSlot, sepKey));
      if !isLeaf {
        nodeLeft.upper := GetChild(nodeLeft.count);
      }
      SlotCapacityPositive(isLeaf);
      nodeLeft.MakeHint();
    }

    /** The right half in a fresh page. */
    method RightHalf(sepSlot: nat, sepKey: Key) returns (nodeRight: BTreeNode)
      requires LayoutOf(count) && sepSlot < count == |entries|
      requires Ordered(SplitRight(View(), sepSlot, sepKey)) && Fits(SplitRight(View(), sepSlot, sepKey))
      ensures fresh(nodeRight) && nodeRight.LayoutOf(nodeRight.count) && nodeRight.View() == SplitRight(View(), sepSlot, sepKey)
    {
      var _, up := GetFences();
      nodeRight := HalfPage(sepKey, up, sepSlot + 1, count - sepSlot - 1, SplitRight(View(), sepSlot, sepKey));
      if !isLeaf {
        nodeRight.upper := upper;
      }
    }

    method Halves(sepSlot: nat, sepKey: Key) returns (nodeLeft: BTreeNode, nodeRight: BTreeNode)
      requires LayoutOf(count) && Ordered(View()) && SplitsAt(View(), sepSlot, sepKey)
      requires Fits(SplitLeft(View(), sepSlot, sepKey)) && Fits(SplitRight(View(), sepSlot, sepKey))
      ensures fresh(nodeLeft) && nodeLeft.Valid() && nodeLeft.View() == SplitLeft(View(), sepSlot, sepKey)
      ensures fresh(nodeRight) && nodeRight.LayoutOf(nodeRight.count) && nodeRight.View() == SplitRight(View(), sepSlot, sepKey)
    {
      Basics(ImageOf(count));
      SplitOrdered(View(), sepSlot, sepKey);
      nodeLeft := LeftHalf(sepSlot, sepKey);
      nodeRight := RightHalf(sepSlot, sepKey);
    }

    /** Splits this page: the left half moves to a new page, which the parent gets as child for keys up to the
        separator; this page keeps the right half. */
    method SplitNode(parent: BTreeNode, sepSlot: nat, sepKey: Key, leftAddress: Address) returns (ok: bool, nodeLeft: BTreeNode)
      requires parent != this && Valid() && parent.Valid()
      requires Ordered(View()) && SplitsAt(View(), sepSlot, sepKey)
      requires Fits(SplitLeft(View(), sepSlot, sepKey)) && Fits(SplitRight(View(), sepSlot, sepKey))
      requires Sorted(parent.entries) && parent.PrefixMatches(sepKey)
      requires SpaceNeeded(parent.View(), |sepKey|, CHILD_BYTES) <= FreeAfterCompaction(parent.View())
      modifies this, parent
      ensures Valid() && parent.Valid() && fresh(nodeLeft) && nodeLeft.Valid()
      ensures ok <==> forall i | 0 <= i < |old(parent.entries)| :: old(parent.entries)[i].key != sepKey
      ensures ok ==> nodeLeft.View() == SplitLeft(old(View()), sepSlot, sepKey)
      ensures View() == if ok then SplitRight(old(View()), sepSlot, sepKey) else old(View())
      ensures parent.View() == if ok then InsertEntry(old(parent.View()), Entry(sepKey, EncodePtr(leftAddress))) else old(parent.View())
    {
      var nodeRight;
      nodeLeft, nodeRight := Halves(sepSlot, sepKey);
      ok := parent.InsertChild(sepKey, leftAddress);
      if ok {
        Overwrite(nodeRight);
      }
    }

    /** Stored bytes of the first n slots, prefix included each time. */
    method FullSize(n: nat, newPrefix: nat) returns (size: int)
      requires LayoutOf(count) && n <= count == |entries|
      ensures size == StoredSize(entries[..n], newPrefix)
    {
      size := 0;
      for i := 0 to n
        invariant size == SizeUpTo(entries, newPrefix, i)
      {
        SlotIsEntry(i);
        size := size + slot[i].keyLen + prefixLength - newPrefix + slot[i].payloadLen;
      }
      SizeUpToPrefix(entries[..n], entries[n..], newPrefix, n);
      assert entries == entries[..n] + entries[n..];
    }

    /** Whether the left half of a leaf split will pass the space assertions of insertFence and copyKeyValueRange. */
    method LeftHalfFits(sepSlot: nat, sepKey: Key) returns (ok: bool)
      requires LayoutOf(count) && isLeaf && sepSlot < count == |entries|
      ensures ok <==> Fits(SplitLeft(View(), sepSlot, sepKey))
    {
      var lo, _ := GetFences();
      var newPrefix := MatchingBytes(lo, sepKey);
      var size := FullSize(sepSlot + 1, newPrefix);
      ok := sizes.header + SlotBytes(sepSlot + 1) + |lo| + |sepKey| + size <= PageSize(true);
    }

    // ---- descent ----

    /** The index of the child for a key. */
    method LookupInnerIndex(key: Key) returns (pos: nat)
      requires Valid() && Sorted(entries) && PrefixMatches(key)
      ensures pos <= |entries| == count && pos == Nodes.LowerBound(entries, key)
    {
      var found;
      pos, found := LowerBound(key);
      LowerBoundUnique(entries, key, pos, Nodes.LowerBound(entries, key));
    }

    /** Child i of an inner page; the one after the last slot is upper. */
    method ChildAtIndex(i: nat) returns (c: Address)
      requires LayoutOf(count) && i <= count == |entries|
      ensures c == if i == count then upper else DecodePtr(entries[i].payload)
    {
      c := if i == count then upper else GetChild(i);
    }

    // ---- scans ----

    /** The first slot a scan from key visits; without a key it starts at the first slot. */
    ghost function FirstSlot(key: Option<Key>): nat
      requires Sorted(entries)
      reads this
    {
      if key.None? then 0 else Nodes.LowerBound(entries, key.value)
    }

    ghost predicate BufferHolds(keyOut: array<Byte>)
      reads this, keyOut
    {
      && |FencePrefix(lowerKey, upperKey)| <= keyOut.Length
      && keyOut[..|FencePrefix(lowerKey, upperKey)|] == FencePrefix(lowerKey, upperKey)
      && forall i | 0 <= i < |entries| :: |entries[i].key| <= keyOut.Length
    }

    /** Shows slot i to the callback: only the bytes after the prefix are copied, the buffer then holds the full key. */
    method VisitSlot(i: nat, keyOut: array<Byte>, v: Visitor) returns (go: bool)
      requires LayoutOf(count) && i < count == |entries| && BufferHolds(keyOut)
      modifies keyOut, v`seen
      ensures v.seen == old(v.seen) + [entries[i]] && go == v.more(v.seen)
      ensures BufferHolds(keyOut)
    {
      SlotIsEntry(i);
      CopyStored(i, keyOut);
      go := v.Visit(keyOut, slot[i].keyLen + prefixLength, GetPayload(i));
    }

    /** Copies what is stored of a key behind the prefix. */
    method CopyStored(i: nat, keyOut: array<Byte>)
      requires LayoutOf(count) && i < count == |entries| && BufferHolds(keyOut)
      modifies keyOut
      ensures |entries[i].key| <= keyOut.Length && keyOut[..|entries[i].key|] == entries[i].key && BufferHolds(keyOut)
    {
      SlotIsEntry(i);
      PrefixIsShared(ImageOf(count));
      assert |entries[i].key| <= keyOut.Length;
      CopyTo(keyOut, prefixLength, GetKey(i));
      assert keyOut[..prefixLength + |GetKey(i)|] == keyOut[..prefixLength] + keyOut[prefixLength..prefixLength + |GetKey(i)|];
    }

    /** The slot a scan from key starts at. */
    method StartSlot(key: Option<Key>) returns (from: nat)
      requires Valid() && Sorted(entries) && (key.Some? ==> PrefixMatches(key.value))
      ensures from == FirstSlot(key) && from <= count == |entries|
    {
      Basics(ImageOf(count));
      from := 0;
      if key.Some? {
        var found;
        from, found := LowerBound(key.value);
        LowerBoundUnique(entries, key.value, from, Nodes.LowerBound(entries, key.value));
      }
    }

    /** Shows the callback the entries from key on, until it says stop. */
    method RangeLookup(key: Option<Key>, keyOut: array<Byte>, v: Visitor) returns (go: bool, ghost out: seq<Entry>, ghost to: nat)
      requires Valid() && Sorted(entries) && (key.Some? ==> PrefixMatches(key.value)) && BufferHolds(keyOut)
      modifies keyOut, v`seen
      ensures Shown(v.more, old(v.seen), v.seen, out, !go)
      ensures FirstSlot(key) <= to <= |entries| && Part(out, entries, FirstSlot(key), to, false)
      ensures if go then to == |entries| else to > FirstSlot(key)
      ensures BufferHolds(keyOut)
    {
      var from := StartSlot(key);
      out := [];
      ShownNothing(v.more, v.seen);
      PartNothing(entries, from, false);
      var i := from;
      while i < count
        invariant from <= i <= count && Part(out, entries, from, i, false) && BufferHolds(keyOut)
        invariant Shown(v.more, old(v.seen), v.seen, out, false)
      {
        ghost var now, es := v.seen, out;
        go := VisitSlot(i, keyOut, v);
        ShownNext(v.more, old(v.seen), now, es, entries[i], !go);
        PartUp(es, entries, from, i);
        out := es + [entries[i]];
        i := i + 1;
        to := i;
        if !go {
          return;
        }
      }
      go, to := true, i;
    }

    /** The number of entries up to key. */
    method TopSlot(key: Key) returns (top: nat)
      requires Valid() && Sorted(entries) && PrefixMatches(key)
      ensures top <= |entries| == count && forall i | 0 <= i < |entries| :: LessEq(entries[i].key, key) <==> i < top
    {
      Basics(ImageOf(count));
      var lb, found := LowerBound(key);
      top := if found then lb + 1 else lb;
      TopIs(entries, key, lb, top);
    }

    /** Shows the callback the entries up to key in descending order, until it says stop. */
    method RangeLookupDesc(key: Key, keyOut: array<Byte>, v: Visitor) returns (go: bool, ghost out: seq<Entry>, ghost from: nat, ghost top: nat)
      requires Valid() && Sorted(entries) && PrefixMatches(key)
      requires |key| <= keyOut.Length && forall i | 0 <= i < |entries| :: |entries[i].key| <= keyOut.Length
      modifies keyOut, v`seen
      ensures Shown(v.more, old(v.seen), v.seen, out, !go)
      ensures from <= top <= |entries| && Part(out, entries, from, top, true)
      ensures forall i | 0 <= i < |entries| :: LessEq(entries[i].key, key) <==> i < top
      ensures if go then from == 0 else from < top
    {
      PrefixIsShared(ImageOf(count));
      CopyTo(keyOut, 0, key[..prefixLength]);
      assert keyOut[0..0 + prefixLength] == keyOut[..prefixLength];
      var n := TopSlot(key);
      top := n;
      go, out, from := VisitDown(n, keyOut, v);
    }

    method VisitDown(top: nat, keyOut: array<Byte>, v: Visitor) returns (go: bool, ghost out: seq<Entry>, ghost from: nat)
      requires LayoutOf(count) && top <= count == |entries| && BufferHolds(keyOut)
      modifies keyOut, v`seen
      ensures Shown(v.more, old(v.seen), v.seen, out, !go)
      ensures from <= top && Part(out, entries, from, top, true)
      ensures if go then from == 0 else from < top
    {
      out := [];
      ShownNothing(v.more, v.seen);
      PartNothing(entries, top, true);
      var i: int := top - 1;
      while i >= 0
        invariant -1 <= i < top && Part(out, entries, i + 1, top, true) && BufferHolds(keyOut)
        invariant Shown(v.more, old(v.seen), v.seen, out, false)
      {
        ghost var now, es := v.seen, out;
        go := VisitSlot(i, keyOut, v);
        ShownNext(v.more, old(v.seen), now, es, entries[i], !go);
        PartDown(es, entries, i, top);
        out := es + [entries[i]];
        from := i;
        i := i - 1;
        if !go {
          return;
        }
      }
      go, from := true, 0;
    }
  }

  /** The entries up to a key: those before its lower bound and the one at it if it is the key. */
  lemma TopIs(es: seq<Entry>, key: Key, lb: nat, top: nat)
    requires Sorted(es) && IsLowerBound(es, key, lb)
    requires top == if lb < |es| && es[lb].key == key then lb + 1 else lb
    ensures forall i | 0 <= i < |es| :: LessEq(es[i].key, key) <==> i < top
  {
    forall i | 0 <= i < |es| ensures LessEq(es[i].key, key) <==> i < top {
      LessTotal(es[i].key, key);
      if lb < i {
        assert InOrder(es, lb, i);
        LessEqTrans(key, es[lb].key, es[i].key);
      }
    }
  }
}
