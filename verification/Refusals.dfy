/** Concrete trees of longest keys that refuse an insert, though memory is free and the entry is within the limit. */
module Refusals {
  import opened Bytes
  import opened Layout
  import opened Nodes
  import opened Images
  import opened Separators
  import opened Trees
  import opened TreeSteps
  import opened Splits
  import opened Passes
  import opened HashImages
  import opened HashNodes

  /** A key as long as insert accepts, told apart by its first byte. */
  ghost function Long(b: Byte): (k: Key)
    ensures |k| == MaxKVSize() && k != [] && k[0] == b
  {
    LimitLarge();
    [b] + seq(MaxKVSize() - 1, _ => 0)
  }

  lemma LimitLarge()
    ensures MaxKVSize() >= 3 && MaxKVSize() > sizes.slot
    ensures 2 * sizes.slot + 2 * MaxKVSize() + 2 * CHILD_BYTES <= sizes.inner - sizes.header
  {
  }

  lemma LongApart(b: Byte, c: Byte)
    requires b != c
    ensures CommonPrefix(Long(b), Long(c)) == 0 && (Less(Long(b), Long(c)) <==> b < c)
  {
    CommonPrefixIs(Long(b), Long(c), 0);
  }

  ghost function EntryOf(b: Byte): Entry {
    Entry(Long(b), [])
  }

  // ---- one or two longest entries in a leaf ----

  lemma InsertFirst(n: Node, b: Byte)
    requires n.entries == []
    ensures InsertEntry(n, EntryOf(b)) == n.(entries := [EntryOf(b)])
  {
  }

  lemma InsertSecond(n: Node, b: Byte, c: Byte)
    requires n.entries == [EntryOf(b)] && b < c
    ensures Sorted(n.entries) && InsertEntry(n, EntryOf(c)) == n.(entries := [EntryOf(b), EntryOf(c)])
  {
    LongApart(b, c);
    LowerBoundUnique(n.entries, Long(c), 1, LowerBound(n.entries, Long(c)));
  }

  lemma SpaceOfOne(n: Node, b: Byte)
    requires n.entries == [EntryOf(b)] && PrefixLength(n) == 0
    ensures SpaceUsed(n) == |n.lower| + |n.upper| + MaxKVSize() && SlotBytes(1) == sizes.slot
  {
    assert SizeUpTo(n.entries, 0, 1) == SizeUpTo(n.entries, 0, 0) + MaxKVSize();
    assert SlotBytes(1) == SlotBytes(0) + sizes.slot;
  }

  lemma SpaceOfTwo(n: Node, b: Byte, c: Byte)
    requires n.entries == [EntryOf(b), EntryOf(c)] && PrefixLength(n) == 0
    ensures SpaceUsed(n) == |n.lower| + |n.upper| + 2 * MaxKVSize() && SlotBytes(2) == 2 * sizes.slot
  {
    assert SizeUpTo(n.entries, 0, 1) == SizeUpTo(n.entries, 0, 0) + MaxKVSize();
    assert SizeUpTo(n.entries, 0, 2) == SizeUpTo(n.entries, 0, 1) + MaxKVSize();
    assert SlotBytes(1) == SlotBytes(0) + sizes.slot;
    assert SlotBytes(2) == SlotBytes(1) + sizes.slot;
  }

  /** Two longest entries go into an empty leaf without an upper fence. */
  lemma TwoInserted(t: Tree, a: Address, b: Byte, c: Byte, m: map<Key, seq<Byte>>) returns (t': Tree)
    requires WellFormed(t) && Answers(t, m) && a in t.nodes && b < c
    requires t.nodes[a].isLeaf && t.nodes[a].entries == [] && t.nodes[a].upper == [] && Covers(t, a, Long(b)) && Covers(t, a, Long(c))
    ensures WellFormed(t') && Answers(t', m[Long(b) := []][Long(c) := []]) && t'.root == t.root && t'.longest == MaxKVSize()
    ensures t'.nodes == t.nodes[a := t.nodes[a].(entries := [EntryOf(b), EntryOf(c)])]
  {
    var n := t.nodes[a];
    assert NodeOk(t, a);
    CommonPrefixIs(n.lower, n.upper, 0);
    LeafIs(t, a, Long(b));
    InsertFirst(n, b);
    var t1 := LeafInserted(t, a, EntryOf(b), MaxKVSize(), m);
    var n1 := t1.nodes[a];
    SpaceOfOne(n1, b);
    InsertSecond(n1, b, c);
    LongApart(b, c);
    LeafIs(t1, a, Long(c));
    t' := LeafInserted(t1, a, EntryOf(c), MaxKVSize(), m[Long(b) := []]);
  }

  /** A leaf of two longest entries is split after both, by the whole second key. */
  lemma PickedOfTwo(n: Node, b: Byte, c: Byte)
    requires n.isLeaf && n.entries == [EntryOf(b), EntryOf(c)] && b < c
    ensures Picked(n, SeparatorInfo(MaxKVSize(), 1, false)) && SepKey(n.entries, SeparatorInfo(MaxKVSize(), 1, false)) == Long(c)
  {
    LongApart(b, c);
    CommonPrefixIs(Long(c), Long(c), MaxKVSize());
    assert Long(c)[..MaxKVSize()] == Long(c);
    FoundFirst(n.entries);
  }

  /** ... and is full. */
  lemma NoThird(n: Node, b: Byte, c: Byte, k: Key)
    requires n.isLeaf && n.entries == [EntryOf(b), EntryOf(c)] && |n.lower| + |n.upper| == MaxKVSize() && PrefixLength(n) == 0
    requires sizes.leaf <= sizes.inner && |k| == MaxKVSize()
    ensures SpaceNeeded(n, |k|, 0) > FreeAfterCompaction(n)
  {
    SpaceOfTwo(n, b, c);
    LimitLarge();
  }

  // ---- the run ----

  ghost function Fork(left: Node, right: Node): map<Address, Node> {
    map[1 := right, 2 := Node(false, [], [], [Entry(Long(3), EncodePtr(3))], 1), 3 := left]
  }

  lemma ForkIs(n: Node, par: Node)
    requires n == Node(true, [], [], [EntryOf(1), EntryOf(3)], 0) && par == RootNode(1)
    ensures SplitLeft(n, 1, Long(3)) == n.(upper := Long(3)) && SplitRight(n, 1, Long(3)) == Node(true, Long(3), [], [], 0)
    ensures InsertEntry(par, Entry(Long(3), EncodePtr(3))) == par.(entries := [Entry(Long(3), EncodePtr(3))])
  {
    assert n.entries[..2] == n.entries && n.entries[2..] == [];
  }

  /** The first leaf with both keys, before and after there is a root above it. */
  lemma TwoBelowRoot() returns (t0: Tree, t: Tree)
    ensures WellFormed(t0) && t0.root == 1 && t0.nodes == map[1 := Node(true, [], [], [EntryOf(1), EntryOf(3)], 0)]
    ensures t0.root in t0.level && t == RootStep(t0, 2)
    ensures WellFormed(t) && Answers(t, map[Long(1) := [], Long(3) := []]) && t.root == 2 && t.longest == MaxKVSize()
    ensures t.nodes == map[1 := Node(true, [], [], [EntryOf(1), EntryOf(3)], 0), 2 := RootNode(1)]
    ensures 1 in t.parent && t.parent[1] == 2
  {
    EmptyTreeOk();
    t0 := TwoInserted(EmptyTree(), 1, 1, 3, map[]);
    RootStepOk(t0, 2);
    RootStepAnswers(t0, 2);
    t := RootStep(t0, 2);
    AnswersKept(t0, t, map[Long(1) := [], Long(3) := []]);
  }

  /** The left half of a leaf with both keys, with the second as its upper fence. */
  lemma BothOnTheLeft(n: Node)
    requires n == Node(true, [], [], [EntryOf(1), EntryOf(3)], 0)
    ensures Fits(SplitLeft(n, 1, Long(3)))
  {
    ForkIs(n, RootNode(1));
    CommonPrefixIs([], Long(3), 0);
    SpaceOfTwo(n.(upper := Long(3)), 1, 3);
    LimitLarge();
  }

  /** Inserting Long(1) and Long(3), and a third longest entry that finds no room: a new root, and the leaf splits
      after both entries. The third entry is not there yet. */
  lemma TwoThenSplit() returns (t0: Tree, t: Tree)
    requires sizes.leaf <= sizes.inner && sizes.slot >= 3
    ensures WellFormed(t0) && t0.root == 1 && t0.nodes == map[1 := Node(true, [], [], [EntryOf(1), EntryOf(3)], 0)]
    ensures t0.root in t0.level && WellFormed(RootStep(t0, 2)) && HasSplit(RootStep(t0, 2), t, 1, Long(2))
    ensures WellFormed(t) && Answers(t, map[Long(1) := [], Long(3) := []]) && t.root == 2 && t.longest == MaxKVSize()
    ensures t.nodes == Fork(Node(true, [], Long(3), [EntryOf(1), EntryOf(3)], 0), Node(true, Long(3), [], [], 0))
  {
    var t2;
    t0, t2 := TwoBelowRoot();
    t := ForkSplit(t2);
  }

  lemma ForkSplit(t2: Tree) returns (t: Tree)
    requires sizes.leaf <= sizes.inner && sizes.slot >= 3
    requires WellFormed(t2) && Answers(t2, map[Long(1) := [], Long(3) := []]) && t2.root == 2 && t2.longest == MaxKVSize()
    requires t2.nodes == map[1 := Node(true, [], [], [EntryOf(1), EntryOf(3)], 0), 2 := RootNode(1)]
    requires 1 in t2.parent && t2.parent[1] == 2
    ensures HasSplit(t2, t, 1, Long(2))
    ensures WellFormed(t) && Answers(t, map[Long(1) := [], Long(3) := []]) && t.root == 2 && t.longest == MaxKVSize()
    ensures t.nodes == Fork(Node(true, [], Long(3), [EntryOf(1), EntryOf(3)], 0), Node(true, Long(3), [], [], 0))
  {
    var n, info := t2.nodes[1], SeparatorInfo(MaxKVSize(), 1, false);
    PickedOfTwo(n, 1, 3);
    BothOnTheLeft(n);
    ForkIs(n, t2.nodes[2]);
    EmptyRootFits(1);
    RootTakes(t2.nodes[2]);
    t := PickedSplit(t2, 1, info, 3, Long(2), map[Long(1) := [], Long(3) := []]);
  }

  lemma RootTakes(n: Node)
    requires n == RootNode(1)
    ensures SpaceNeeded(n, MaxKVSize(), CHILD_BYTES) <= FreeAfterCompaction(n)
  {
    EmptyRootFits(1);
    LimitLarge();
  }

  lemma RootHasRoom(n: Node)
    requires n == Node(false, [], [], [Entry(Long(3), EncodePtr(3))], 1)
    ensures SpaceNeeded(n, MaxKVSize(), CHILD_BYTES) <= FreeAfterCompaction(n)
  {
    LimitLarge();
    assert SizeUpTo(n.entries, 0, 1) == SizeUpTo(n.entries, 0, 0) + MaxKVSize() + CHILD_BYTES;
    assert SlotBytes(1) == SlotBytes(0) + sizes.slot;
  }

  /** A leaf of two longest entries below the fork's root is blocked by a bad separator. */
  lemma BlockedByTwo(t: Tree, a: Address, b: Byte, c: Byte)
    requires WellFormed(t) && t.root == 2 && a in t.nodes && a != 2 && 2 in t.nodes
    requires t.nodes[2] == Node(false, [], [], [Entry(Long(3), EncodePtr(3))], 1) && a in t.parent && t.parent[a] == 2
    requires t.nodes[a].isLeaf && t.nodes[a].entries == [EntryOf(b), EntryOf(c)] && b < c
    requires c == 3 || !Fits(SplitLeft(t.nodes[a], 1, Long(c)))
    ensures Blocked(t, a)
  {
    var n, info := t.nodes[a], SeparatorInfo(MaxKVSize(), 1, false);
    PickedOfTwo(n, b, c);
    RootHasRoom(t.nodes[2]);
    SplitDecides(t, a, info);
    if c == 3 { assert t.nodes[2].entries[0].key == Long(3); }
  }

  /** Long(1), Long(3), then Long(2): the leaf with both is split again by the separator its parent already has. */
  lemma DuplicateSeparator() returns (t0: Tree, t: Tree)
    requires sizes.leaf <= sizes.inner && sizes.slot >= 3
    ensures WellFormed(t) && Answers(t, map[Long(1) := [], Long(3) := []]) && |Long(2)| == MaxKVSize()
    ensures Refuses(t, Long(2), 0) && !NearlyOut(t)
    ensures WellFormed(t0) && t0.root == 1 && t0.nodes == map[1 := Node(true, [], [], [EntryOf(1), EntryOf(3)], 0)]
    ensures t0.root in t0.level && WellFormed(RootStep(t0, 2)) && HasSplit(RootStep(t0, 2), t, 1, Long(2))
  {
    t0, t := TwoThenSplit();
    LongApart(2, 3);
    ForkPlaces(t);
    LeafIs(t, 3, Long(2));
    CommonPrefixIs([], Long(3), 0);
    NoThird(t.nodes[3], 1, 3, Long(2));
    BlockedByTwo(t, 3, 1, 3);
    assert IsFree(t, 4) && IsFree(t, 5);
  }

  /** The leaf with both keys as the root can be split: it does not refuse the third key at once. But after that
      split its left half does. */
  lemma RefusedLater() returns (t: Tree)
    requires sizes.leaf <= sizes.inner && sizes.slot >= 3
    ensures WellFormed(t) && t.nodes == map[1 := Node(true, [], [], [EntryOf(1), EntryOf(3)], 0)]
    ensures Doomed(t, Long(2), 0) && !Refuses(t, Long(2), 0)
  {
    var t';
    t, t' := DuplicateSeparator();
    LeafIs(t, 1, Long(2));
    RootLeafSplits(t);
    PassedRoot(t, 2, t', Long(2));
    CommonPrefixIs([], [], 0);
    NoRoomForThird(t.nodes[1]);
    DoomedNow(t', Long(2), 0);
    DoomedAfter(t, t', 1, Long(2), 0);
  }

  lemma RootLeafSplits(t: Tree)
    requires sizes.leaf <= sizes.inner && sizes.slot >= 3
    requires WellFormed(t) && t.root == 1 && t.nodes == map[1 := Node(true, [], [], [EntryOf(1), EntryOf(3)], 0)]
    ensures Verdict(t, 1).Split? && !Blocked(t, 1)
  {
    var n := t.nodes[1];
    assert NodeOk(t, 1);
    FreshRootHasRoom(n, 1, t.longest);
    PickedOfTwo(n, 1, 3);
    BothOnTheLeft(n);
    forall info ensures !BadSeparator(n, RootNode(1), info) {
      if Picked(n, info) { PickedUnique(n, info, SeparatorInfo(MaxKVSize(), 1, false)); }
    }
    assert IsFree(t, 2) && IsFree(t, 3);
  }

  lemma NoRoomForThird(n: Node)
    requires n == Node(true, [], [], [EntryOf(1), EntryOf(3)], 0) && sizes.leaf <= sizes.inner && sizes.slot >= 3
    ensures SpaceNeeded(n, MaxKVSize(), 0) > FreeAfterCompaction(n)
  {
    CommonPrefixIs([], [], 0);
    SpaceOfTwo(n, 1, 3);
    LimitLarge();
  }

  lemma ForkPlaces(t: Tree)
    requires WellFormed(t) && t.root == 2 && t.nodes.Keys == {1, 2, 3}
    requires t.nodes[2] == Node(false, [], [], [Entry(Long(3), EncodePtr(3))], 1)
    ensures 1 in t.parent && t.parent[1] == 2 && 3 in t.parent && t.parent[3] == 2
  {
    assert HasChildIndex(t, 2, 0) && HasChildIndex(t, 2, 1);
    assert ChildOk(t, 2, 0) && ChildOk(t, 2, 1);
  }

  /** Longest keys in ascending order, the fifth: the leaf's left half does not fit once it carries the separator as
      its upper fence. */
  lemma LeftHalfTooLong() returns (t: Tree)
    requires sizes.leaf <= sizes.inner && sizes.slot >= 3
    ensures WellFormed(t) && Answers(t, map[Long(1) := [], Long(3) := [], Long(4) := [], Long(5) := []]) && |Long(6)| == MaxKVSize()
    ensures Refuses(t, Long(6), 0) && !NearlyOut(t)
  {
    var _, t0 := TwoThenSplit();
    LongApart(3, 4);
    LongApart(3, 5);
    LongApart(3, 6);
    t := TwoInserted(t0, 1, 4, 5, map[Long(1) := [], Long(3) := []]);
    var n := t.nodes[1];
    ForkPlaces(t);
    LeafIs(t, 1, Long(6));
    CommonPrefixIs(Long(3), [], 0);
    NoThird(n, 4, 5, Long(6));
    SpaceOfTwo(SplitLeft(n, 1, Long(5)), 4, 5);
    BlockedByTwo(t, 1, 4, 5);
    assert IsFree(t, 4) && IsFree(t, 5);
  }

  // ---- a hash page ----

  /** Two longest keys and a short one behind a longest lower fence. */
  ghost function TwoAndShort(): Node {
    Node(true, Long(0), [], [EntryOf(1), EntryOf(2), Entry([3], [])], 0)
  }

  lemma BelowThree(b: Byte)
    requires b < 3
    ensures CommonPrefix(Long(b), [3]) == 0 && Less(Long(b), [3])
  {
    CommonPrefixIs(Long(b), [3], 0);
  }

  lemma TwoAndShortOrdered()
    ensures Ordered(TwoAndShort()) && PrefixLength(TwoAndShort()) == 0
  {
    LongApart(0, 1);
    LongApart(0, 2);
    LongApart(1, 2);
    BelowThree(0);
    BelowThree(1);
    BelowThree(2);
    CommonPrefixIs(Long(0), [], 0);
    var n := TwoAndShort();
    forall i, j | 0 <= i < j < 3 ensures InOrder(n.entries, i, j) {}
    forall i | 0 <= i < 3 ensures Within(n.lower, n.upper, n.entries[i].key) {}
  }

  lemma TwoAndShortSize()
    ensures StoredSize(TwoAndShort().entries, 0) == 2 * MaxKVSize() + 1 && SizeUpTo(TwoAndShort().entries, 0, 2) == 2 * MaxKVSize()
    ensures HashSlotBytes(3) == 3 * hashing.slot && HashSlotBytes(2) == 2 * hashing.slot
  {
    var es := TwoAndShort().entries;
    assert SizeUpTo(es, 0, 1) == SizeUpTo(es, 0, 0) + MaxKVSize();
    assert SizeUpTo(es, 0, 2) == SizeUpTo(es, 0, 1) + MaxKVSize();
    assert SizeUpTo(es, 0, 3) == SizeUpTo(es, 0, 2) + 1;
    assert HashSlotBytes(1) == hashing.slot;
  }

  /** A hash page has room for these entries and three hash bytes; its separator is the whole second key, and with it
      as its upper fence the left half does not fit. */
  lemma HashLeftTooLong()
    requires sizes.leaf <= sizes.inner && sizes.header + 2 * sizes.slot + 2 < MaxKVSize()
    requires hashing.header + 3 * hashing.slot + 4 <= sizes.header + 2 * sizes.slot
    ensures var n := TwoAndShort(); var info := SeparatorInfo(MaxKVSize(), 1, false);
      && Ordered(n) && HashFits(n.lower, n.upper, 3, n.entries)
      && info == CutInfo(n.entries, (|n.entries| - 1) / 2) && SepKey(n.entries, info) == Long(2) && SplitsAt(n, 1, Long(2))
      && !LeftHalfFits(n, 1, Long(2))
  {
    var n := TwoAndShort();
    TwoAndShortOrdered();
    TwoAndShortSize();
    BelowThree(2);
    assert Long(2)[..MaxKVSize()] == Long(2);
    forall i | 0 <= i < 3 ensures StartsWith(n.entries[i], FencePrefix(n.lower, n.upper)) {}
    var capacity := Capacity(MaxKVSize(), 3 * MaxKVSize() + 1, 3);
    forall u ensures EstimateNow(u, capacity, n) {}
    LeftFitsIs(n, 1, Long(2), capacity);
    LongApart(0, 2);
    assert n.entries[0..2] == n.entries[..2];
    SizeOfTake(n.entries, 0, 2);
  }
}
