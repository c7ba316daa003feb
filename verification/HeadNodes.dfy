/** HeadNode: an inner page whose separators are whole integers, four or eight bytes wide. */
module HeadNodes {
  import opened Bytes
  import opened Layout
  import opened Nodes
  import opened Images
  import opened Hints
  import opened Separators
  import opened BigEndian
  import opened PackedKeys
  import opened Pages

  /** Where the key array starts in a page of each width. */
  datatype DataOffsets = DataOffsets(four: nat, eight: nat)

  type HeadSizes = d: DataOffsets | d.four <= d.eight && d.eight + 64 <= sizes.inner witness DataOffsets(0, 0)

  const heads: HeadSizes

  function DataOffset(width: nat): nat {
    if width == 4 then heads.four else heads.eight
  }

  /** Keys that fit before the fences, each with its child, and one child more. */
  function KeyCapacity(width: nat, fences: nat): nat
    requires width == 4 || width == 8
  {
    if DataOffset(width) + CHILD_BYTES + fences <= sizes.inner
    then
      var room := sizes.inner - fences - DataOffset(width) - CHILD_BYTES;
      if width == 4 then room / (4 + CHILD_BYTES) else room / (8 + CHILD_BYTES)
    else 0
  }

  /** Keys, children and fences do not overlap. */
  lemma CapacityFits(width: nat, fences: nat)
    requires width == 4 || width == 8
    requires DataOffset(width) + CHILD_BYTES + fences <= sizes.inner
    ensures var c := KeyCapacity(width, fences);
      DataOffset(width) + width * c + CHILD_BYTES * (c + 1) + fences <= sizes.inner
      < DataOffset(width) + width * (c + 1) + CHILD_BYTES * (c + 2) + fences
  {
  }

  // ---- packed slots ----

  ghost predicate SlotOk(width: nat, prefix: Key, keys: seq<nat>, children: seq<Address>, es: seq<Entry>, i: nat)
    requires i < |keys| && i < |children| && i < |es|
  {
    PackedAs(width, prefix, keys[i], children[i], es[i])
  }

  /** The integer packs what is left of the entry's key, the payload is the child. */
  ghost predicate PackedAs(width: nat, prefix: Key, x: nat, child: Address, e: Entry) {
    && prefix <= e.key && |e.key| - |prefix| < width <= 8
    && x == PackSep(width, e.key[|prefix|..])
    && e.payload == EncodePtr(child)
  }

  ghost predicate SlotsOk(width: nat, prefix: Key, keys: seq<nat>, children: seq<Address>, es: seq<Entry>) {
    && |es| <= |keys| && |es| <= |children|
    && forall i | 0 <= i < |es| :: SlotOk(width, prefix, keys, children, es, i)
  }

  /** The 32 leading bits of a key, which the hints keep. */
  function HintHead(width: nat, x: nat): nat {
    if width == 8 then x / 0x1_0000_0000 else x
  }

  function HintSlots(width: nat, keys: seq<nat>, count: nat): (s: seq<Slot>)
    requires count <= |keys|
    ensures |s| == count && forall i {:trigger s[i]} | 0 <= i < count :: s[i].head == HintHead(width, keys[i])
  {
    seq(count, i requires 0 <= i < count => Slot(0, 0, 0, HintHead(width, keys[i])))
  }

  ghost predicate KeysInOrder(keys: seq<nat>, i: nat, j: nat)
    requires i < |keys| && j < |keys|
  {
    keys[i] < keys[j]
  }

  ghost predicate Ascending(keys: seq<nat>, count: nat)
    requires count <= |keys|
  {
    forall i, j | 0 <= i < j < count :: KeysInOrder(keys, i, j)
  }

  lemma PackedLess(width: nat, prefix: Key, x: nat, c: Address, e: Entry, y: nat, d: Address, f: Entry)
    requires PackedAs(width, prefix, x, c, e) && PackedAs(width, prefix, y, d, f)
    ensures x < y <==> Less(e.key, f.key)
    ensures x <= y <==> LessEq(e.key, f.key)
  {
    var a, b := e.key[|prefix|..], f.key[|prefix|..];
    SepOrder(width, a, b);
    SepOrder(width, b, a);
    StoredLess(prefix, e.key, f.key);
    LessTotal(a, b);
    assert e.key == prefix + a && f.key == prefix + b;
  }

  lemma PackedHolds(width: nat, prefix: Key, x: nat, c: Address, e: Entry)
    requires PackedAs(width, prefix, x, c, e)
    ensures KeyLength(x) == |e.key| - |prefix| && |prefix| <= |e.key| && |UnpackSep(width, x)| < width
    ensures e.key == prefix + UnpackSep(width, x)
  {
    UnpackPack(width, e.key[|prefix|..]);
  }

  /** Sorted separators are ascending integers. */
  lemma KeysAscend(width: nat, prefix: Key, keys: seq<nat>, children: seq<Address>, es: seq<Entry>)
    requires SlotsOk(width, prefix, keys, children, es) && Sorted(es)
    ensures Ascending(keys, |es|) && HeadsSorted(HintSlots(width, keys, |es|))
  {
    forall i, j | 0 <= i < j < |es| ensures KeysInOrder(keys, i, j) {
      assert SlotOk(width, prefix, keys, children, es, i) && SlotOk(width, prefix, keys, children, es, j) && InOrder(es, i, j);
      PackedLess(width, prefix, keys[i], children[i], es[i], keys[j], children[j], es[j]);
    }
    forall i, j | 0 <= i <= j < |es| ensures HeadsInOrder(HintSlots(width, keys, |es|), i, j) {
      if i < j { assert KeysInOrder(keys, i, j); HintMonotone(width, keys[i], keys[j]); }
    }
  }

  lemma HintMonotone(width: nat, x: nat, y: nat)
    requires x <= y
    ensures HintHead(width, x) <= HintHead(width, y)
  {
  }

  lemma HintDecides(width: nat, x: nat, y: nat)
    requires HintHead(width, x) < HintHead(width, y)
    ensures x < y
  {
    if y <= x { HintMonotone(width, y, x); }
  }

  /** What the integer search finds is the lower bound of the full key. */
  lemma RoutesAlike(width: nat, prefix: Key, keys: seq<nat>, children: seq<Address>, es: seq<Entry>, key: Key, pos: nat)
    requires 0 < width <= 8 && SlotsOk(width, prefix, keys, children, es) && prefix <= key && pos <= |es|
    requires forall i | 0 <= i < pos :: keys[i] < PackNeedle(width, key[|prefix|..])
    requires forall i | pos <= i < |es| :: PackNeedle(width, key[|prefix|..]) <= keys[i]
    ensures IsLowerBound(es, key, pos)
  {
    var k := key[|prefix|..];
    assert key == prefix + k;
    forall i | 0 <= i < |es|
      ensures LessEq(key, es[i].key) <==> PackNeedle(width, k) <= keys[i]
      ensures Less(es[i].key, key) <==> !LessEq(key, es[i].key)
    {
      assert SlotOk(width, prefix, keys, children, es, i);
      var s := es[i].key[|prefix|..];
      NeedleOrder(width, k, s);
      assert es[i].key == prefix + s;
      PrefixShift(prefix, k, s);
      LessTotal(key, es[i].key);
    }
  }

  // ---- moving slots ----

  lemma SlotsInsert(width: nat, prefix: Key, keys: seq<nat>, children: seq<Address>, es: seq<Entry>, pos: nat, x: nat, c: Address, e: Entry,
                    keys': seq<nat>, children': seq<Address>)
    requires SlotsOk(width, prefix, keys, children, es) && pos <= |es| < |keys| == |keys'| && |es| + 1 < |children| == |children'|
    requires PackedAs(width, prefix, x, c, e)
    requires keys' == MovedUp(keys, pos, |es|)[pos := x] && children' == MovedUp(children, pos, |es| + 1)[pos := c]
    ensures SlotsOk(width, prefix, keys', children', Inserted(es, pos, e)) && children'[|es| + 1] == children[|es|]
  {
    var q := Inserted(es, pos, e);
    forall i | 0 <= i < |q| ensures SlotOk(width, prefix, keys', children', q, i) {
      if i != pos {
        var j := if i < pos then i else i - 1;
        SameSlotOk(width, prefix, keys, children, es, j, keys', children', q, i);
      }
    }
  }

  /** A slot moved is a slot kept. */
  lemma SameSlotOk(width: nat, prefix: Key, keys: seq<nat>, children: seq<Address>, es: seq<Entry>, i: nat,
                   keys': seq<nat>, children': seq<Address>, es': seq<Entry>, j: nat)
    requires SlotsOk(width, prefix, keys, children, es) && i < |es| && j < |keys'| && j < |children'| && j < |es'|
    requires keys'[j] == keys[i] && children'[j] == children[i] && es'[j] == es[i]
    ensures SlotOk(width, prefix, keys', children', es', j)
  {
    assert SlotOk(width, prefix, keys, children, es, i);
  }

  lemma SlotsRemove(width: nat, prefix: Key, keys: seq<nat>, children: seq<Address>, es: seq<Entry>, pos: nat,
                    keys': seq<nat>, children': seq<Address>)
    requires SlotsOk(width, prefix, keys, children, es) && pos < |es| <= |keys| == |keys'| && |es| < |children| == |children'|
    requires keys' == MovedDown(keys, pos, |es|) && children' == MovedDown(children, pos, |es| + 1)
    ensures SlotsOk(width, prefix, keys', children', Removed(es, pos)) && children'[|es| - 1] == children[|es|]
  {
    var q := Removed(es, pos);
    forall i | 0 <= i < |q| ensures SlotOk(width, prefix, keys', children', q, i) {
      SameSlotOk(width, prefix, keys, children, es, if i < pos then i else i + 1, keys', children', q, i);
    }
  }

  /** A separator under a longer prefix of the page. */
  lemma PackedLonger(width: nat, prefix: Key, longer: Key, x: nat, c: Address, e: Entry)
    requires PackedAs(width, prefix, x, c, e) && prefix <= longer <= e.key
    ensures |longer| - |prefix| <= KeyLength(x) && PackedAs(width, longer, Strip(width, x, |longer| - |prefix|), c, e)
    ensures |longer| == |prefix| ==> Strip(width, x, 0) == x
  {
    var s, t, d := e.key[|prefix|..], e.key[|longer|..], |longer| - |prefix|;
    DroppedTwice(e.key, |prefix|, d);
    StrippedIs(width, s, x, d, t);
  }

  lemma StrippedIs(width: nat, s: Key, x: nat, d: nat, t: Key)
    requires |s| < width <= 8 && x == PackSep(width, s) && d <= |s| && t == s[d..]
    ensures d <= KeyLength(x) && Strip(width, x, d) == PackSep(width, t) && (d == 0 ==> Strip(width, x, d) == x)
  {
    UnpackPack(width, s);
    StripIs(width, s, d);
    if d == 0 { assert t == s; }
  }

  lemma DroppedTwice(k: Key, i: nat, j: nat)
    requires i + j <= |k|
    ensures k[i..][j..] == k[i + j..]
  {
  }

  lemma SlotsCopied(width: nat, prefix: Key, keys: seq<nat>, children: seq<Address>, es: seq<Entry>, longer: Key, from: nat, n: nat,
                    keys': seq<nat>, children': seq<Address>)
    requires width <= 8 && SlotsOk(width, prefix, keys, children, es) && from + n <= |es| && n <= |keys'| && n <= |children'|
    requires prefix <= longer && AllStartWith(es[from..from + n], longer)
    requires forall i | 0 <= i < n :: keys'[i] == Strip(width, keys[from + i], |longer| - |prefix|) && children'[i] == children[from + i]
    ensures SlotsOk(width, longer, keys', children', es[from..from + n])
  {
    var q := es[from..from + n];
    forall i | 0 <= i < |q| ensures SlotOk(width, longer, keys', children', q, i) {
      assert SlotOk(width, prefix, keys, children, es, from + i) && StartsWith(q[i], longer);
      PackedLonger(width, prefix, longer, keys[from + i], children[from + i], es[from + i]);
    }
  }

  /** A few more fence bytes cost at most one key. */
  lemma CapacityShrinks(width: nat, f: nat, g: nat)
    requires width == 4 || width == 8
    requires g <= f + width - 1
    ensures KeyCapacity(width, g) + 1 >= KeyCapacity(width, f)
  {
  }

  lemma Capacity4(f: nat)
    ensures KeyCapacity(4, f) >= KeyCapacity(8, f)
    ensures KeyCapacity(8, f) >= 3 ==> KeyCapacity(4, f) > KeyCapacity(8, f)
  {
  }

  /** The header of a packed page is no longer than a plain one's, and a slot no shorter than a packed separator. */
  ghost predicate PacksTighter(width: nat) {
    DataOffset(width) + CHILD_BYTES <= sizes.header && width <= sizes.slot
  }

  /** What a plain page holds, a packed one holds too; with room for one more where slots and header save as much. */
  lemma PackingHolds(n: Node, width: nat)
    requires (width == 4 || width == 8) && !n.isLeaf && Ordered(n) && Fits(n) && PacksTighter(width)
    requires forall i | 0 <= i < |n.entries| :: |n.entries[i].payload| == CHILD_BYTES
    ensures |n.entries| <= KeyCapacity(width, |n.lower| + |n.upper|)
    ensures sizes.header - DataOffset(width) - CHILD_BYTES + (sizes.slot - width) * |n.entries| >= width + CHILD_BYTES ==>
      |n.entries| < KeyCapacity(width, |n.lower| + |n.upper|)
  {
    var c := |n.entries|;
    KeysHavePrefix(n);
    SizeAtLeast(n.entries, PrefixLength(n), c);
    SlotBytesIs(c);
    PackedRoom(sizes.inner - |n.lower| - |n.upper|, c, width);
  }

  lemma PackedRoom(room: int, c: nat, width: nat)
    requires (width == 4 || width == 8) && PacksTighter(width)
    requires room >= sizes.header + sizes.slot * c + CHILD_BYTES * c
    ensures c <= (room - DataOffset(width) - CHILD_BYTES) / (width + CHILD_BYTES)
    ensures sizes.header - DataOffset(width) - CHILD_BYTES + (sizes.slot - width) * c >= width + CHILD_BYTES ==>
      c < (room - DataOffset(width) - CHILD_BYTES) / (width + CHILD_BYTES)
  {
    var slots, saved := sizes.slot * c, (sizes.slot - width) * c;
    assert saved == slots - width * c;
    MulSign(sizes.slot - width, c);
    if width == 4 { PackedRoomIn(room - DataOffset(4) - CHILD_BYTES, c, 12); } else { PackedRoomIn(room - DataOffset(8) - CHILD_BYTES, c, 16); }
  }

  lemma PackedRoomIn(left: int, c: nat, unit: nat)
    requires (unit == 12 || unit == 16) && left >= unit * c
    ensures c <= left / unit
    ensures left >= unit * c + unit ==> c < left / unit
  {
  }

  lemma {:induction false} SizeAtLeast(es: seq<Entry>, p: nat, n: nat)
    requires n <= |es| && forall i | 0 <= i < |es| :: p <= |es[i].key| && |es[i].payload| == CHILD_BYTES
    ensures SizeUpTo(es, p, n) >= CHILD_BYTES * n
  {
    if n > 0 { SizeAtLeast(es, p, n - 1); }
  }

  /** With fences within the limit a page always has room for three packed separators. */
  lemma AtLeastThree(lower: Key, upper: Key)
    requires |lower| <= MaxKVSize() && |upper| <= MaxKVSize() && PacksTighter(8)
    ensures KeyCapacity(8, |lower| + |upper|) >= 3
  {
    DivideBound(sizes.inner - |lower| - |upper| - DataOffset(8) - CHILD_BYTES, 8 + CHILD_BYTES, 3);
  }

  lemma SlotsWiden(prefix: Key, keys: seq<nat>, children: seq<Address>, es: seq<Entry>, keys': seq<nat>, children': seq<Address>)
    requires SlotsOk(4, prefix, keys, children, es) && |es| <= |keys'| && |es| <= |children'|
    requires forall i | 0 <= i < |es| :: keys'[i] == To8(keys[i]) && children'[i] == children[i]
    ensures SlotsOk(8, prefix, keys', children', es)
  {
    forall i | 0 <= i < |es| ensures SlotOk(8, prefix, keys', children', es, i) {
      assert SlotOk(4, prefix, keys, children, es, i);
      WidthChanges(es[i].key[|prefix|..]);
    }
  }

  lemma SlotsNarrow(prefix: Key, keys: seq<nat>, children: seq<Address>, es: seq<Entry>, keys': seq<nat>, children': seq<Address>)
    requires SlotsOk(8, prefix, keys, children, es) && |es| <= |keys'| && |es| <= |children'|
    requires forall i | 0 <= i < |es| :: KeyLength(keys[i]) < 4 && keys'[i] == To4(keys[i]) && children'[i] == children[i]
    ensures SlotsOk(4, prefix, keys', children', es)
  {
    forall i | 0 <= i < |es| ensures SlotOk(4, prefix, keys', children', es, i) {
      assert SlotOk(8, prefix, keys, children, es, i);
      UnpackPack(8, es[i].key[|prefix|..]);
      WidthChanges(es[i].key[|prefix|..]);
    }
  }

  // ---- room for one separator more ----

  /** The page's separators and one of keyLen bytes are shorter than width beyond the prefix. */
  ghost predicate PacksIn(n: Node, width: nat, keyLen: nat) {
    && keyLen - PrefixLength(n) < width
    && forall i | 0 <= i < |n.entries| :: |n.entries[i].key| - PrefixLength(n) < width
  }

  /** Fences, header, and integers of that width and children for one separator more fit a page. */
  ghost predicate PackedFits(n: Node, width: nat, keyLen: nat) {
    var c := |n.entries| + 1;
    PacksIn(n, width, keyLen) && DataOffset(width) + width * c + CHILD_BYTES * (c + 1) + |n.lower| + |n.upper| <= sizes.inner
  }

  /** So does a plain page. */
  ghost predicate PlainFits(n: Node, keyLen: nat) {
    SpaceNeeded(n, keyLen, CHILD_BYTES) <= FreeAfterCompaction(n)
  }

  lemma OneMoreFits(width: nat, fences: nat, count: nat)
    requires width == 4 || width == 8
    ensures count + 1 <= KeyCapacity(width, fences) <==>
      DataOffset(width) + width * (count + 1) + CHILD_BYTES * (count + 2) + fences <= sizes.inner
  {
    if DataOffset(width) + CHILD_BYTES + fences <= sizes.inner {
      CapacityFits(width, fences);
    }
  }

  /** With room for three, a page whose separators are all short gains room by narrowing. */
  lemma NarrowingGains(n: Node, keyLen: nat)
    requires PacksIn(n, 4, keyLen) && |n.entries| <= KeyCapacity(8, |n.lower| + |n.upper|) && KeyCapacity(8, |n.lower| + |n.upper|) >= 3
    ensures PackedFits(n, 4, keyLen)
  {
    Capacity4(|n.lower| + |n.upper|);
    OneMoreFits(4, |n.lower| + |n.upper|, |n.entries|);
  }

  class HeadNode {
    /** Bytes of a packed separator: 4 or 8. */
    var width: nat
    var count: nat
    var keyCapacity: nat
    var prefixLength: nat
    var lowerFence: Key
    var upperFence: Key
    var hint: seq<nat>
    var keys: seq<nat>
    var children: seq<Address>
    /** The separators in full with their encoded children. */
    ghost var entries: seq<Entry>

    ghost predicate Layout()
      reads this
    {
      && (width == 4 || width == 8)
      && |keys| == keyCapacity == KeyCapacity(width, |lowerFence| + |upperFence|) && |children| == keyCapacity + 1
      && prefixLength == CommonPrefix(lowerFence, upperFence)
      && count == |entries| <= keyCapacity
      && SlotsOk(width, FencePrefix(lowerFence, upperFence), keys, children, entries)
    }

    ghost predicate Valid()
      reads this
    {
      Layout() && HintsFor(hint, HintSlots(width, keys, count))
    }

    ghost function View(): Node
      requires Layout()
      reads this
    {
      Node(false, lowerFence, upperFence, entries, children[count])
    }

    /** init: no separators; the one child still has to be set. */
    constructor (width: nat, lower: Key, upper: Key)
      requires width == 4 || width == 8
      ensures Layout() && this.width == width && lowerFence == lower && upperFence == upper && entries == []
      ensures children == seq(keyCapacity + 1, _ => 0) && keys == seq(keyCapacity, _ => 0)
    {
      this.width, lowerFence, upperFence, count := width, lower, upper, 0;
      keyCapacity := KeyCapacity(width, |lower| + |upper|);
      keys := seq(KeyCapacity(width, |lower| + |upper|), _ => 0);
      children := seq(KeyCapacity(width, |lower| + |upper|) + 1, _ => 0);
      hint := seq(HINTS, _ => 0);
      prefixLength := 0;
      entries := [];
      new;
      prefixLength := MatchingBytes(lower, upper);
    }

    // ---- hints ----

    method MakeHint()
      requires Layout() && keyCapacity > 0
      modifies this`hint
      ensures Valid()
    {
      hint := HintValues(0, seq(HINTS, _ => 0));
    }

    /** The hints from begin on, the others kept. */
    method HintValues(begin: nat, was: seq<nat>) returns (now: seq<nat>)
      requires Layout() && keyCapacity > 0 && |was| == HINTS
      requires forall j | 0 <= j < begin && j < HINTS :: HintFor(was[j], HintSlots(width, keys, count), j)
      ensures HintsFor(now, HintSlots(width, keys, count))
    {
      now := was;
      var dist := Stride(count);
      var i := begin;
      while i < HINTS
        invariant begin <= i && |now| == HINTS
        invariant forall j | 0 <= j < i && j < HINTS :: HintFor(now[j], HintSlots(width, keys, count), j)
      {
        if count > 0 { StrideIndex(count, i + 1); }
        now := now[i := HintHead(width, keys[dist * (i + 1)])];
        i := i + 1;
      }
    }

    /** After an insert at slotId only the hints that may have changed are rewritten. */
    method UpdateHint(slotId: nat, ghost was: seq<Slot>)
      requires Layout() && slotId < count && HintsFor(hint, was) && |was| + 1 == count
      requires was[..slotId] == HintSlots(width, keys, count)[..slotId]
      modifies this`hint
      ensures Valid()
    {
      var dist := Stride(count);
      var begin := 0;
      if count > HINTS * 2 + 1 && (count - 1) / (HINTS + 1) == dist && slotId / dist > 1 {
        begin := slotId / dist - 1;
      }
      forall j | 0 <= j < begin && j < HINTS
        ensures HintFor(hint[j], HintSlots(width, keys, count), j)
      {
        HintKept(hint[j], was, HintSlots(width, keys, count), slotId, j);
      }
      hint := HintValues(begin, hint);
    }

    /** Narrows the search to the keys between two hints. */
    method SearchHint(head: nat) returns (lower: nat, upper: nat)
      requires count <= |keys| && HintsFor(hint, HintSlots(width, keys, count)) && HeadsSorted(HintSlots(width, keys, count))
      ensures lower <= upper <= count
      ensures lower > 0 ==> lower < count && HintHead(width, keys[lower]) < HintHead(width, head)
      ensures upper < count ==> HintHead(width, head) < HintHead(width, keys[upper])
    {
      lower, upper := 0, count;
      ghost var slots := HintSlots(width, keys, count);
      var keyHead := HintHead(width, head);
      if count > HINTS * 2 {
        var dist := upper / (HINTS + 1);
        var pos := 0;
        while pos < HINTS && hint[pos] < keyHead
          invariant pos <= HINTS
          invariant pos > 0 ==> hint[pos - 1] < keyHead
        {
          pos := pos + 1;
        }
        var pos2 := pos;
        while pos2 < HINTS && hint[pos2] == keyHead
          invariant pos <= pos2 <= HINTS
        {
          pos2 := pos2 + 1;
        }
        lower := dist * pos;
        if pos2 < HINTS {
          upper := dist * (pos2 + 1);
        }
        HintWindow(hint, slots, keyHead, pos, pos2);
      }
    }

    // ---- search ----

    /** The first key not below head. */
    method LowerBound(head: nat) returns (pos: nat)
      requires Valid() && Sorted(entries)
      ensures pos <= count && (forall i | 0 <= i < pos :: keys[i] < head) && (forall i | pos <= i < count :: head <= keys[i])
    {
      KeysAscend(width, FencePrefix(lowerFence, upperFence), keys, children, entries);
      var lower, upper := SearchHint(head);
      if lower > 0 {
        HintDecides(width, keys[lower], head);
        AscendBelow(lower, head);
      }
      if upper < count {
        HintDecides(width, head, keys[upper]);
        AscendAbove(upper, head);
      }
      while lower < upper
        invariant 0 <= lower <= upper <= count
        invariant forall i | 0 <= i < lower :: keys[i] < head
        invariant forall i | upper <= i < count :: head <= keys[i]
      {
        var mid := (upper - lower) / 2 + lower;
        if head <= keys[mid] {
          AscendAbove(mid, head);
          upper := mid;
        } else {
          AscendBelow(mid, head);
          lower := mid + 1;
        }
      }
      pos := lower;
    }

    lemma AscendBelow(mid: nat, head: nat)
      requires count <= |keys| && Ascending(keys, count) && mid < count && keys[mid] < head
      ensures forall i | 0 <= i <= mid :: keys[i] < head
    {
      forall i | 0 <= i < mid ensures keys[i] < head { assert KeysInOrder(keys, i, mid); }
    }

    lemma AscendAbove(mid: nat, head: nat)
      requires count <= |keys| && Ascending(keys, count) && mid < count && head <= keys[mid]
      ensures forall i | mid <= i < count :: head <= keys[i]
    {
      forall i | mid < i < count ensures head <= keys[i] { assert KeysInOrder(keys, mid, i); }
    }

    /** The child a key belongs to is the one routing on full keys finds. */
    method LookupInnerIndex(key: Key) returns (pos: nat)
      requires Valid() && Sorted(entries) && FencePrefix(lowerFence, upperFence) <= key
      ensures pos == Nodes.LowerBound(entries, key) <= count
    {
      pos := LowerBound(PackNeedle(width, key[prefixLength..]));
      RoutesAlike(width, FencePrefix(lowerFence, upperFence), keys, children, entries, key, pos);
      LowerBoundUnique(entries, key, pos, Nodes.LowerBound(entries, key));
    }

    method LookupInner(key: Key) returns (child: Address)
      requires Valid() && Sorted(entries) && FencePrefix(lowerFence, upperFence) <= key
      ensures var n := View(); var i := Nodes.LowerBound(entries, key);
        child == if i == |n.entries| then n.upperChild else DecodePtr(n.entries[i].payload)
    {
      var pos := LookupInnerIndex(key);
      child := children[pos];
      if pos < count {
        assert SlotOk(width, FencePrefix(lowerFence, upperFence), keys, children, entries, pos);
      }
    }

    // ---- insert and remove ----

    /** Opens a gap for a separator and its child. */
    method InsertAt(index: nat, head: nat, child: Address, ghost e: Entry)
      requires Layout() && index <= count < keyCapacity
      requires PackedAs(width, FencePrefix(lowerFence, upperFence), head, child, e)
      modifies this`keys, this`children, this`count, this`entries
      ensures Layout() && count == old(count) + 1 && entries == Inserted(old(entries), index, e)
      ensures children[count] == old(children[count])
      ensures keys == MovedUp(old(keys), index, old(count))[index := head]
    {
      var ks, cs := MovedUp(keys, index, count)[index := head], MovedUp(children, index, count + 1)[index := child];
      SlotsInsert(width, FencePrefix(lowerFence, upperFence), keys, children, entries, index, head, child, e, ks, cs);
      keys, children := ks, cs;
      entries := Inserted(entries, index, e);
      count := count + 1;
    }

    /** insertChild of a separator the page has not got yet and that is short enough to be packed. */
    method InsertChild(key: Key, child: Address)
      requires Valid() && Sorted(entries) && FencePrefix(lowerFence, upperFence) <= key
      requires |key| - prefixLength < width && count < keyCapacity
      requires forall i | 0 <= i < |entries| :: entries[i].key != key
      modifies this
      ensures Valid() && View() == InsertEntry(old(View()), Entry(key, EncodePtr(child)))
      ensures width == old(width) && keyCapacity == old(keyCapacity)
    {
      var s := key[prefixLength..];
      var head := PackSep(width, s);
      ghost var was := HintSlots(width, keys, count);
      var index := LowerBound(head);
      SameHead(s);
      RoutesAlike(width, FencePrefix(lowerFence, upperFence), keys, children, entries, key, index);
      LowerBoundUnique(entries, key, index, Nodes.LowerBound(entries, key));
      InsertAt(index, head, child, Entry(key, EncodePtr(child)));
      assert was[..index] == HintSlots(width, keys, count)[..index];
      UpdateHint(index, was);
    }

    /** A separator's head is its needle. */
    lemma SameHead(s: Key)
      requires |s| < width <= 8
      ensures PackNeedle(width, s) == PackSep(width, s)
    {
    }

    method RemoveSlot(index: nat)
      requires Valid() && index < count
      modifies this
      ensures Valid() && View() == RemoveAt(old(View()), index)
    {
      SlotsRemove(width, FencePrefix(lowerFence, upperFence), keys, children, entries, index,
                  MovedDown(keys, index, count), MovedDown(children, index, count + 1));
      keys := MovedDown(keys, index, count);
      children := MovedDown(children, index, count + 1);
      entries := Removed(entries, index);
      count := count - 1;
      MakeHint();
    }

    // ---- split ----

    function GetKeyLength(i: nat): nat
      requires i < |keys|
      reads this
    {
      KeyLength(keys[i])
    }

    lemma LengthIs(i: nat)
      requires Layout() && i < count
      ensures GetKeyLength(i) == |entries[i].key| - prefixLength && prefixLength <= |entries[i].key|
      ensures entries[i].key == FencePrefix(lowerFence, upperFence) + UnpackSep(width, keys[i])
      ensures entries[i].payload == EncodePtr(children[i]) && |UnpackSep(width, keys[i])| < width
    {
      var prefix := FencePrefix(lowerFence, upperFence);
      assert SlotOk(width, prefix, keys, children, entries, i);
      PackedHolds(width, prefix, keys[i], children[i], entries[i]);
    }

    /** Inner nodes are split in the middle. */
    method FindSeparator() returns (info: SeparatorInfo)
      requires Layout() && count > 1
      ensures 1 <= info.slot == count / 2 && info.length == |entries[info.slot].key| && !info.isTruncated
    {
      var slotId := count / 2;
      LengthIs(slotId);
      info := SeparatorInfo(prefixLength + GetKeyLength(slotId), slotId, false);
    }

    method GetSep(info: SeparatorInfo) returns (sep: Key)
      requires Layout() && info.slot < count && info.length == |entries[info.slot].key|
      ensures sep == entries[info.slot].key
    {
      LengthIs(info.slot);
      var keyBytes := BigBytes(width, keys[info.slot]);
      sep := lowerFence[..prefixLength] + keyBytes[..info.length - prefixLength];
    }

    /** The keys of a range under a prefix longer by diff, in front of those a fresh page has. */
    method StrippedKeys(from: nat, n: nat, diff: nat, into: seq<nat>) returns (ks: seq<nat>)
      requires Layout() && from + n <= count && n <= |into|
      ensures |ks| == |into| && forall i | 0 <= i < n :: ks[i] == Strip(width, keys[from + i], diff)
    {
      ks := into;
      for i := 0 to n
        invariant |ks| == |into| && forall j | 0 <= j < i :: ks[j] == Strip(width, keys[from + j], diff)
      {
        if diff == 0 { KeepsWhole(from + i); }
        ks := ks[i := if diff == 0 then keys[from + i] else Strip(width, keys[from + i], diff)];
      }
    }

    lemma KeepsWhole(i: nat)
      requires Layout() && i < count
      ensures Strip(width, keys[i], 0) == keys[i]
    {
      var prefix := FencePrefix(lowerFence, upperFence);
      assert SlotOk(width, prefix, keys, children, entries, i);
      PackedLonger(width, prefix, prefix, keys[i], children[i], entries[i]);
    }

    /** The keys and children of a range under a longer prefix. */
    method CopyRange(from: nat, n: nat, diff: nat, p: HeadNode) returns (ks: seq<nat>, cs: seq<Address>)
      requires Layout() && from + n <= count && p.Layout() && n <= p.keyCapacity
      ensures |ks| == p.keyCapacity && |cs| == p.keyCapacity + 1
      ensures forall i | 0 <= i < n :: ks[i] == Strip(width, keys[from + i], diff) && cs[i] == children[from + i]
      ensures cs[n] == children[from + n]
    {
      ks := StrippedKeys(from, n, diff, p.keys);
      cs := children[from..from + n + 1] + p.children[n + 1..];
    }

    /** A fresh page between fences inside this page's with a range of its separators. */
    method Half(lower: Key, upper: Key, from: nat, n: nat, ghost half: Node) returns (p: HeadNode)
      requires Layout() && from + n <= count && keyCapacity > 0
      requires half == Node(false, lower, upper, entries[from..from + n], children[from + n]) && Ordered(half)
      requires FencePrefix(lowerFence, upperFence) <= FencePrefix(lower, upper)
      requires n <= KeyCapacity(width, |lower| + |upper|) && KeyCapacity(width, |lower| + |upper|) > 0
      ensures fresh(p) && p.Valid() && p.View() == half && p.width == width
    {
      p := new HeadNode(width, lower, upper);
      var ks, cs := CopyRange(from, n, p.prefixLength - prefixLength, p);
      HalfCopied(half, from, n, ks, cs);
      p.Fill(ks, cs, n, half.entries);
    }

    /** Gives a fresh page its separators. */
    method Fill(ks: seq<nat>, cs: seq<Address>, n: nat, ghost es: seq<Entry>)
      requires Layout() && |ks| == keyCapacity && keyCapacity > 0 && |cs| == keyCapacity + 1 && n == |es| <= keyCapacity
      requires SlotsOk(width, FencePrefix(lowerFence, upperFence), ks, cs, es)
      modifies this`keys, this`children, this`count, this`entries, this`hint
      ensures Valid() && View() == Node(false, lowerFence, upperFence, es, cs[n])
    {
      keys, children, count, entries := ks, cs, n, es;
      MakeHint();
    }

    lemma HalfCopied(half: Node, from: nat, n: nat, ks: seq<nat>, cs: seq<Address>)
      requires Layout() && from + n <= count && half.entries == entries[from..from + n] && Ordered(half)
      requires FencePrefix(lowerFence, upperFence) <= FencePrefix(half.lower, half.upper) && n <= |ks| && n <= |cs|
      requires forall i | 0 <= i < n ::
        ks[i] == Strip(width, keys[from + i], CommonPrefix(half.lower, half.upper) - prefixLength) && cs[i] == children[from + i]
      ensures SlotsOk(width, FencePrefix(half.lower, half.upper), ks, cs, half.entries)
    {
      assert half.entries[0..n] == half.entries;
      AllStartWithFencePrefix(half, half.entries, 0);
      SlotsCopied(width, FencePrefix(lowerFence, upperFence), keys, children, entries, FencePrefix(half.lower, half.upper), from, n, ks, cs);
    }

    /** Both halves of a split always have room for their separators: a packed separator is at most width - 1 bytes
        longer than what the fences share. */
    lemma HalvesHaveRoom(sepSlot: nat)
      requires Layout() && 1 <= sepSlot < count && keyCapacity >= 2
      ensures var sep := |entries[sepSlot].key|; var left, right := KeyCapacity(width, |lowerFence| + sep), KeyCapacity(width, sep + |upperFence|);
        sepSlot <= left && count - sepSlot - 1 <= right && 0 < left && 0 < right
    {
      LengthIs(sepSlot);
      var sep := |entries[sepSlot].key|;
      CapacityShrinks(width, |lowerFence| + |upperFence|, |lowerFence| + sep);
      CapacityShrinks(width, |lowerFence| + |upperFence|, sep + |upperFence|);
    }

    method LeftHalf(sepSlot: nat, sepKey: Key) returns (nodeLeft: HeadNode)
      requires Layout() && 1 <= sepSlot < count && sepKey == entries[sepSlot].key && keyCapacity >= 2
      requires Ordered(SplitLeft(View(), sepSlot, sepKey)) && FencePrefix(lowerFence, upperFence) <= FencePrefix(lowerFence, sepKey)
      ensures fresh(nodeLeft) && nodeLeft.Valid() && nodeLeft.View() == SplitLeft(View(), sepSlot, sepKey)
    {
      HalvesHaveRoom(sepSlot);
      LengthIs(sepSlot);
      ghost var l := SplitLeft(View(), sepSlot, sepKey);
      assert entries[0..sepSlot] == entries[..sepSlot];
      nodeLeft := Half(lowerFence, sepKey, 0, sepSlot, l);
    }

    method RightHalf(sepSlot: nat, sepKey: Key) returns (nodeRight: HeadNode)
      requires Layout() && 1 <= sepSlot < count && sepKey == entries[sepSlot].key && keyCapacity >= 2
      requires Ordered(SplitRight(View(), sepSlot, sepKey)) && FencePrefix(lowerFence, upperFence) <= FencePrefix(sepKey, upperFence)
      ensures fresh(nodeRight) && nodeRight.Valid() && nodeRight.View() == SplitRight(View(), sepSlot, sepKey)
    {
      HalvesHaveRoom(sepSlot);
      ghost var r := SplitRight(View(), sepSlot, sepKey);
      assert entries[sepSlot + 1..sepSlot + 1 + (count - sepSlot - 1)] == entries[sepSlot + 1..];
      nodeRight := Half(sepKey, upperFence, sepSlot + 1, count - sepSlot - 1, r);
    }

    /** The two halves of a split; the separator and its child move to the parent and the left half. */
    method Split(sepSlot: nat, sepKey: Key) returns (nodeLeft: HeadNode, nodeRight: HeadNode)
      requires Valid() && Ordered(View()) && 1 <= sepSlot < count && sepKey == entries[sepSlot].key && keyCapacity >= 2
      ensures fresh(nodeLeft) && nodeLeft.Valid() && nodeLeft.View() == SplitLeft(View(), sepSlot, sepKey)
      ensures fresh(nodeRight) && nodeRight.Valid() && nodeRight.View() == SplitRight(View(), sepSlot, sepKey)
    {
      HalvesInOrder(View(), sepSlot, sepKey);
      nodeLeft := LeftHalf(sepSlot, sepKey);
      nodeRight := RightHalf(sepSlot, sepKey);
    }

    // ---- changing the width ----

    /** All separators and children in eight-byte form, if one more would still fit. */
    method ConvertToHead8() returns (ok: bool)
      requires Valid() && width == 4
      modifies this
      ensures Valid() && View() == old(View())
      ensures ok <==> old(count) + 1 <= KeyCapacity(8, |old(lowerFence)| + |old(upperFence)|)
      ensures if ok then width == 8 && count < keyCapacity else width == 4 && keyCapacity == old(keyCapacity)
    {
      var capacity := KeyCapacity(8, |lowerFence| + |upperFence|);
      ok := count + 1 <= capacity;
      if ok {
        var ks := WideKeys(seq(capacity, _ => 0));
        SlotsWiden(FencePrefix(lowerFence, upperFence), keys, children, entries, ks, children);
        Rewrite(8, capacity, ks);
      }
    }

    method WideKeys(into: seq<nat>) returns (ks: seq<nat>)
      requires Layout() && count <= |into|
      ensures |ks| == |into| && forall i | 0 <= i < count :: ks[i] == To8(keys[i])
    {
      ks := into;
      for i := 0 to count
        invariant |ks| == |into| && forall j | 0 <= j < i :: ks[j] == To8(keys[j])
      {
        ks := ks[i := (keys[i] - keys[i] % 256) * 0x1_0000_0000 + keys[i] % 256];
      }
    }

    /** memcpy of the converted page over this one. */
    method Rewrite(newWidth: nat, capacity: nat, ks: seq<nat>)
      requires Layout() && (newWidth == 4 || newWidth == 8) && count <= |ks| == capacity && capacity > 0
      requires capacity == KeyCapacity(newWidth, |lowerFence| + |upperFence|)
      requires SlotsOk(newWidth, FencePrefix(lowerFence, upperFence), ks, children, entries)
      modifies this
      ensures Valid() && View() == old(View()) && width == newWidth && keyCapacity == capacity && count == old(count)
    {
      ghost var was := children;
      children := children[..count + 1] + seq(capacity - count, _ => 0);
      forall i | 0 <= i < |entries| ensures SlotOk(newWidth, FencePrefix(lowerFence, upperFence), ks, children, entries, i) {
        assert SlotOk(newWidth, FencePrefix(lowerFence, upperFence), ks, was, entries, i);
      }
      width, keyCapacity, keys := newWidth, capacity, ks;
      MakeHint();
    }

    /** All separators in four-byte form, if none is longer than three bytes. */
    method ConvertToHead4() returns (ok: bool)
      requires Valid() && width == 8 && keyCapacity > 0
      modifies this
      ensures Valid() && View() == old(View())
      ensures ok <==> forall i | 0 <= i < |old(entries)| :: |old(entries)[i].key| - old(prefixLength) < 4
      ensures if ok then width == 4 && keyCapacity == KeyCapacity(4, |lowerFence| + |upperFence|)
              else width == 8 && keyCapacity == old(keyCapacity)
    {
      ok := AllShort();
      if ok {
        Capacity4(|lowerFence| + |upperFence|);
        var capacity := KeyCapacity(4, |lowerFence| + |upperFence|);
        var ks := NarrowKeys(seq(capacity, _ => 0));
        Rewrite(4, capacity, ks);
      }
    }

    method AllShort() returns (short: bool)
      requires Layout()
      ensures short <==> forall i | 0 <= i < |entries| :: |entries[i].key| - prefixLength < 4
    {
      for i := 0 to count
        invariant forall j | 0 <= j < i :: |entries[j].key| - prefixLength < 4
      {
        LengthIs(i);
        if GetKeyLength(i) >= 4 {
          return false;
        }
      }
      return true;
    }

    method NarrowKeys(into: seq<nat>) returns (ks: seq<nat>)
      requires Layout() && width == 8 && count <= |into| && forall i | 0 <= i < |entries| :: |entries[i].key| - prefixLength < 4
      ensures |ks| == |into| && SlotsOk(4, FencePrefix(lowerFence, upperFence), ks, children, entries)
    {
      ks := into;
      for i := 0 to count
        invariant |ks| == |into| && forall j | 0 <= j < i :: ks[j] == To4(keys[j])
      {
        ks := ks[i := keys[i] / 0x1_0000_0000 + keys[i] % 256];
      }
      forall i | 0 <= i < |entries| ensures KeyLength(keys[i]) < 4 { LengthIs(i); }
      SlotsNarrow(FencePrefix(lowerFence, upperFence), keys, children, entries, ks, children);
    }

    // ---- to and from the plain page ----

    /** Bytes of all packed separators. */
    method KeyBytes() returns (size: nat)
      requires Layout()
      ensures size + CHILD_BYTES * count == StoredSize(entries, prefixLength)
    {
      size := 0;
      for i := 0 to count
        invariant 0 <= size && size + CHILD_BYTES * i == SizeUpTo(entries, prefixLength, i)
      {
        LengthIs(i);
        size := size + GetKeyLength(i);
      }
    }

    /** Stores every separator and child in a plain page with the same fences. */
    method CopyToBasic(dst: BTreeNode, ghost total: nat)
      requires Layout() && dst.Receiving([], entries, 0, total) && dst.ImageOf(0).Prefix() == FencePrefix(lowerFence, upperFence)
      requires dst.lowerKey == lowerFence && dst.upperKey == upperFence
      modifies dst`slot, dst`heap, dst`dataOffset, dst`spaceUsed, dst`entries
      ensures dst.Receiving([], entries, count, total)
    {
      var i := 0;
      while i < count
        invariant 0 <= i <= count && dst.Receiving([], entries, i, total)
        invariant dst.lowerKey == lowerFence && dst.upperKey == upperFence
      {
        LengthIs(i);
        PrefixIsShared(dst.ImageOf(i));
        assert entries[i] == Entry(FencePrefix(lowerFence, upperFence) + UnpackSep(width, keys[i]), EncodePtr(children[i]));
        dst.ReceiveNext(UnpackSep(width, keys[i]), EncodePtr(children[i]), i, i, [], entries, total);
        i := i + 1;
      }
    }

    /** A plain page with the same separators and children, if a separator of truncatedKeyLen stored bytes will fit
        there besides. */
    method ConvertToBasic(truncatedKeyLen: nat) returns (ok: bool, node: BTreeNode)
      requires Layout() && Ordered(View())
      ensures ok <==> sizes.slot + truncatedKeyLen + CHILD_BYTES <= FreeAfterCompaction(View())
      ensures fresh(node) && (ok ==> node.Valid() && node.View() == View())
    {
      node := new BTreeNode(false);
      var size := KeyBytes();
      var bound := |lowerFence| + |upperFence| + SlotBytes(count + 1) + CHILD_BYTES * (count + 1) + truncatedKeyLen + size;
      ok := bound + sizes.header <= sizes.inner;
      if ok {
        assert entries == entries[0..0 + |entries|];
        PartRoom(View(), entries, 0);
        node := BTreeNode.NewPage(false, lowerFence, upperFence);
        StartReceiving(node);
        CopyToBasic(node, sizes.inner);
        node.Finish(count, children[count], entries, sizes.inner);
      }
    }

    lemma StartReceiving(node: BTreeNode)
      requires Layout() && RoomIn(View(), 0, 0, entries, 0, entries)
      requires node.LayoutOf(0) && node.View() == Node(false, lowerFence, upperFence, [], 0)
      requires node.dataOffset == sizes.inner - |lowerFence| - |upperFence| && node.spaceUsed == |lowerFence| + |upperFence|
      requires node.prefixLength == prefixLength && node.ImageOf(0).Prefix() == FencePrefix(lowerFence, upperFence)
      ensures node.Receiving([], entries, 0, sizes.inner)
    {
      CopiedEnds([], [], entries);
    }

    /** Packs the separators of a plain page, each short enough. */
    static method PackAll(src: BTreeNode, width: nat, capacity: nat) returns (ks: seq<nat>, cs: seq<Address>, ghost es: seq<Entry>)
      requires 0 < width <= 8 && src.LayoutOf(src.count) && src.count <= capacity
      requires forall i | 0 <= i < |src.entries| :: |src.entries[i].key| - src.prefixLength < width
      ensures |ks| == capacity && |cs| == capacity + 1 && |es| == src.count == |src.entries|
      ensures SlotsOk(width, FencePrefix(src.lowerKey, src.upperKey), ks, cs, es)
      ensures forall i | 0 <= i < |es| :: SameSlot(es, src.entries, i)
    {
      Basics(src.ImageOf(src.count));
      PrefixIsShared(src.ImageOf(src.count));
      ghost var prefix := FencePrefix(src.lowerKey, src.upperKey);
      ks, cs, es := seq(capacity, _ => 0), seq(capacity + 1, _ => 0), [];
      var i := 0;
      while i < src.count
        invariant 0 <= i == |es| <= src.count && |ks| == capacity && |cs| == capacity + 1
        invariant SlotsOk(width, prefix, ks, cs, es)
        invariant forall j | 0 <= j < i :: SameSlot(es, src.entries, j)
      {
        src.SlotIsEntry(i);
        var key, child := src.GetKey(i), src.GetChild(i);
        ghost var was, e := es, Entry(src.entries[i].key, EncodePtr(child));
        PackOne(width, prefix, key, child, e);
        AppendSlot(width, prefix, ks, cs, es, PackSep(width, key), child, e);
        ks, cs, es := ks[i := PackSep(width, key)], cs[i := child], es + [e];
        forall j | 0 <= j <= i ensures SameSlot(es, src.entries, j) {
          if j < i { assert SameSlot(was, src.entries, j); }
        }
        i := i + 1;
      }
    }

    /** clone_from_basic: all separators and children of a plain page in packed form. */
    static method FromBasic(src: BTreeNode, width: nat) returns (node: HeadNode)
      requires (width == 4 || width == 8) && src.Valid() && !src.isLeaf
      requires forall i | 0 <= i < |src.entries| :: |src.entries[i].key| - src.prefixLength < width
      requires src.count <= KeyCapacity(width, |src.lowerKey| + |src.upperKey|) && KeyCapacity(width, |src.lowerKey| + |src.upperKey|) > 0
      ensures fresh(node) && node.Valid() && node.width == width
      ensures node.lowerFence == src.lowerKey && node.upperFence == src.upperKey && |node.entries| == |src.entries|
      ensures node.View().upperChild == src.upper
      ensures forall i | 0 <= i < |src.entries| :: SameSlot(node.entries, src.entries, i)
    {
      var lo, up := src.GetFences();
      node := new HeadNode(width, lo, up);
      var ks: seq<nat>, cs: seq<Address>;
      ghost var es;
      ks, cs, es := PackAll(src, width, node.keyCapacity);
      KeepSlots(width, FencePrefix(lo, up), ks, cs, cs[src.count := src.upper], es);
      cs := cs[src.count := src.upper];
      node.Fill(ks, cs, src.count, es);
    }

    /** The longest of what is left of the new key and of the page's keys: short for four bytes, or at least for eight. */
    static method Lengths(src: BTreeNode, newLen: nat) returns (below8: bool, below4: bool)
      requires src.Valid()
      ensures below8 <==> newLen < 8 && AllShorter(src, 8)
      ensures below8 ==> (below4 <==> newLen < 4 && AllShorter(src, 4))
    {
      Basics(src.ImageOf(src.count));
      below8, below4 := newLen < 8, newLen < 4;
      if !below8 {
        return;
      }
      for i := 0 to src.count
        invariant below8 && forall j | 0 <= j < i :: |src.entries[j].key| - src.prefixLength < 8
        invariant below4 <==> newLen < 4 && forall j | 0 <= j < i :: |src.entries[j].key| - src.prefixLength < 4
      {
        src.SlotIsEntry(i);
        if src.slot[i].keyLen >= 8 {
          below8 := false;
          return;
        }
        below4 := below4 && src.slot[i].keyLen < 4;
      }
    }

    static ghost predicate AllShorter(src: BTreeNode, n: nat)
      reads src
    {
      forall i | 0 <= i < |src.entries| :: |src.entries[i].key| - src.prefixLength < n
    }

    /** requestChildConvertFromBasic: packs a plain page whose separators, and the one that asks for room, are shorter
        than eight bytes beyond the prefix. The page has room then. */
    static method RequestFromBasic(src: BTreeNode, newKeyLength: nat) returns (r: Option<HeadNode>)
      requires src.Valid() && !src.isLeaf && src.prefixLength <= newKeyLength
      requires src.count < KeyCapacity(8, |src.lowerKey| + |src.upperKey|)
      ensures r.Some? <==>
        newKeyLength - src.prefixLength < 8 && forall i | 0 <= i < |src.entries| :: |src.entries[i].key| - src.prefixLength < 8
      ensures r.Some? ==> fresh(r.value) && r.value.Valid() && r.value.View().upperChild == src.upper
      ensures r.Some? ==> r.value.lowerFence == src.lowerKey && r.value.upperFence == src.upperKey && |r.value.entries| == |src.entries|
      ensures r.Some? ==> forall i | 0 <= i < |src.entries| :: SameSlot(r.value.entries, src.entries, i)
      ensures r.Some? ==> r.value.count < r.value.keyCapacity && newKeyLength - src.prefixLength < r.value.width
      ensures r.Some? ==> (r.value.width == 4 || r.value.width == 8)
      ensures r.Some? ==> (r.value.width == 4 <==>
        newKeyLength - src.prefixLength < 4 && forall i | 0 <= i < |src.entries| :: |src.entries[i].key| - src.prefixLength < 4)
    {
      var below8, below4 := Lengths(src, newKeyLength - src.prefixLength);
      if !below8 {
        return None;
      }
      Capacity4(|src.lowerKey| + |src.upperKey|);
      Basics(src.ImageOf(src.count));
      var node := FromBasic(src, if below4 then 4 else 8);
      r := Some(node);
    }

    /** Room for a separator of keyLen bytes: as the page is, in the other width, or as a plain page, which is then returned.
        A page that is narrowed gains room only if four-byte separators do fit. */
    method RequestSpaceFor(keyLen: nat) returns (ok: bool, basic: Option<BTreeNode>)
      requires Valid() && Ordered(View()) && prefixLength <= keyLen && keyCapacity > 0
      modifies this
      ensures Valid() && View() == old(View())
      ensures ok <==> (
        || PackedFits(View(), old(width), keyLen)
        || (old(width) == 4 && PackedFits(View(), 8, keyLen))
        || (old(width) == 8 && PacksIn(View(), 4, keyLen))
        || (keyLen - prefixLength >= old(width) && PlainFits(View(), keyLen)))
      ensures basic.Some? <==>
        ok && keyLen - prefixLength >= old(width) && !(old(width) == 4 && PackedFits(View(), 8, keyLen))
      ensures basic.Some? ==> fresh(basic.value) && basic.value.Valid() && basic.value.View() == View() && PlainFits(View(), keyLen)
      ensures ok && basic.None? ==> PacksIn(View(), width, keyLen) && (count < keyCapacity <==> PackedFits(View(), width, keyLen))
      ensures width == (if !ok || basic.Some? || PackedFits(View(), old(width), keyLen) then old(width) else if old(width) == 4 then 8 else 4)
    {
      basic := None;
      var len := keyLen - prefixLength;
      FormsAre(keyLen);
      if len >= width {
        if width == 4 && len < 8 {
          ok := ConvertToHead8();
          if ok {
            return;
          }
        }
        var node;
        ok, node := ConvertToBasic(len);
        if ok {
          basic := Some(node);
        }
      } else if count < keyCapacity {
        ok := true;
      } else if width == 8 && len < 4 {
        Capacity4(|lowerFence| + |upperFence|);
        ok := ConvertToHead4();
      } else {
        ok := false;
      }
    }

    /** What the tests on counts and lengths come to. */
    lemma FormsAre(keyLen: nat)
      requires Layout() && Ordered(View()) && prefixLength <= keyLen && keyCapacity > 0
      ensures var n, len, fences := View(), keyLen - prefixLength, |lowerFence| + |upperFence|;
        && (PackedFits(n, width, keyLen) <==> len < width && count < keyCapacity)
        && (width == 4 ==> (PackedFits(n, 8, keyLen) <==> len < 8 && count + 1 <= KeyCapacity(8, fences)))
        && (PacksIn(n, 4, keyLen) <==> len < 4 && forall i | 0 <= i < |entries| :: |entries[i].key| - prefixLength < 4)
        && (PackedFits(n, 4, keyLen) <==> PacksIn(n, 4, keyLen) && count + 1 <= KeyCapacity(4, fences))
        && KeyCapacity(8, fences) <= KeyCapacity(4, fences)
    {
      var fences := |lowerFence| + |upperFence|;
      forall i | 0 <= i < count ensures |entries[i].key| - prefixLength < width { LengthIs(i); }
      Capacity4(fences);
      OneMoreFits(4, fences, count);
      OneMoreFits(8, fences, count);
    }
  }

  /** Same separator, same child. */
  ghost predicate SameSlot(a: seq<Entry>, b: seq<Entry>, i: nat) {
    i < |a| && i < |b| && a[i].key == b[i].key && DecodePtr(a[i].payload) == DecodePtr(b[i].payload)
  }

  lemma PackOne(width: nat, prefix: Key, key: Key, c: Address, e: Entry)
    requires 0 < width <= 8 && |key| < width && e == Entry(prefix + key, EncodePtr(c))
    ensures PackedAs(width, prefix, PackSep(width, key), c, e)
  {
    assert e.key[|prefix|..] == key;
  }

  lemma AppendSlot(width: nat, prefix: Key, keys: seq<nat>, children: seq<Address>, es: seq<Entry>, x: nat, c: Address, e: Entry)
    requires SlotsOk(width, prefix, keys, children, es) && |es| < |keys| && |es| < |children| && PackedAs(width, prefix, x, c, e)
    ensures SlotsOk(width, prefix, keys[|es| := x], children[|es| := c], es + [e])
  {
    var n, keys', children', es' := |es|, keys[|es| := x], children[|es| := c], es + [e];
    forall i | 0 <= i < n + 1 ensures SlotOk(width, prefix, keys', children', es', i) {
      if i < n { assert SlotOk(width, prefix, keys, children, es, i); }
    }
  }

  lemma KeepSlots(width: nat, prefix: Key, keys: seq<nat>, was: seq<Address>, now: seq<Address>, es: seq<Entry>)
    requires SlotsOk(width, prefix, keys, was, es) && |es| <= |now| && forall i | 0 <= i < |es| :: now[i] == was[i]
    ensures SlotsOk(width, prefix, keys, now, es)
  {
    forall i | 0 <= i < |es| ensures SlotOk(width, prefix, keys, now, es, i) {
      assert SlotOk(width, prefix, keys, was, es, i);
    }
  }

  lemma HalvesInOrder(n: Node, slot: nat, sep: Key)
    requires Ordered(n) && !n.isLeaf && 1 <= slot < |n.entries| && sep == n.entries[slot].key
    ensures Ordered(SplitLeft(n, slot, sep)) && Ordered(SplitRight(n, slot, sep))
    ensures FencePrefix(n.lower, n.upper) <= FencePrefix(n.lower, sep)
    ensures FencePrefix(n.lower, n.upper) <= FencePrefix(sep, n.upper)
  {
    SplitOrdered(n, slot, sep);
    SplitSeparates(n, slot, sep);
    PrefixNested(n, sep);
  }

  /** The prefixes of both halves extend the page's. */
  lemma PrefixNested(n: Node, sep: Key)
    requires Ordered(n) && Within(n.lower, n.upper, sep)
    ensures FencePrefix(n.lower, n.upper) <= FencePrefix(n.lower, sep)
    ensures FencePrefix(n.lower, n.upper) <= FencePrefix(sep, n.upper)
  {
    PrefixGrows(n.lower, n.upper, n.lower, sep);
    PrefixGrows(n.lower, n.upper, sep, n.upper);
    WithinSharesPrefix(n.lower, n.upper, sep);
  }
}
