/** Splitting and merging pages: order, fences and space of the parts. */
module Separators {
  import opened Bytes
  import opened Layout
  import opened Nodes
  import opened Images

  /** sep parts the entries after slot: entries up to slot are at most sep, later ones above it. */
  ghost predicate Separates(n: Node, slot: nat, sep: Key) {
    && slot < |n.entries|
    && LessEq(n.entries[slot].key, sep)
    && (slot + 1 < |n.entries| ==> Less(sep, n.entries[slot + 1].key))
    && Within(n.lower, n.upper, sep)
  }

  /** The separators a split may use: in an inner node the key of the entry that moves up. */
  ghost predicate SplitsAt(n: Node, slot: nat, sep: Key) {
    && 1 <= slot < |n.entries|
    && if n.isLeaf then Separates(n, slot, sep) else sep == n.entries[slot].key
  }

  // ---- choosing a separator ----

  /** Where a node is split: after slot, by the first length bytes of the key at slot, or of the key
      at slot + 1 when it is truncated. */
  datatype SeparatorInfo = SeparatorInfo(length: nat, slot: nat, isTruncated: bool)
  {
    function Source(): nat {
      slot + if isTruncated then 1 else 0
    }
  }

  /** The slots between which a leaf looks for its separator. */
  function WindowLow(count: nat): nat {
    count / 2 - count / 32
  }

  function WindowHigh(count: nat): nat {
    WindowLow(count) + count / 16
  }

  /** s is a shortest string from a to b. */
  ghost predicate Shortest(a: Key, b: Key, s: Key) {
    && LessEq(a, s) && LessEq(s, b)
    && forall t: Key :: ShorterBetween(a, b, s, t)
  }

  ghost predicate ShorterBetween(a: Key, b: Key, s: Key, t: Key) {
    LessEq(a, t) && LessEq(t, b) ==> |s| <= |t|
  }

  ghost function SepKey(es: seq<Entry>, info: SeparatorInfo): Key
    requires info.Source() < |es| && info.length <= |es[info.Source()].key|
  {
    es[info.Source()].key[..info.length]
  }

  /** What findSeparator promises: an inner node is split in the middle by a whole key; a leaf inside its
      window by a shortest string that parts its two sides. */
  ghost predicate Chosen(n: Node, info: SeparatorInfo) {
    && info.Source() < |n.entries| && info.length <= |n.entries[info.Source()].key|
    && (!info.isTruncated ==> info.length == |n.entries[info.slot].key|)
    && if n.isLeaf then ChosenInLeaf(n.entries, info) else info.slot == |n.entries| / 2 - 1 && !info.isTruncated
  }

  ghost predicate ChosenInLeaf(es: seq<Entry>, info: SeparatorInfo)
    requires info.Source() < |es| && info.length <= |es[info.Source()].key|
  {
    var lower, upper := WindowLow(|es|), WindowHigh(|es|);
    && lower <= info.slot && info.Source() <= upper < |es|
    && Shortest(es[lower].key, es[upper].key, SepKey(es, info))
    && LessEq(es[info.slot].key, SepKey(es, info))
    && (info.slot + 1 < |es| ==> Less(SepKey(es, info), es[info.slot + 1].key))
  }

  /** The first key after slot lower whose byte c is not the one of lower's key. */
  ghost predicate FirstDiffers(es: seq<Entry>, lower: nat, c: nat, i: nat) {
    && lower < i < |es| && c < |es[lower].key| && c < |es[i].key| && es[i].key[c] != es[lower].key[c]
    && forall j | lower <= j < i :: c < |es[j].key| && es[j].key[c] == es[lower].key[c]
  }

  /** The one separator findSeparator settles on. */
  ghost predicate Picked(n: Node, info: SeparatorInfo) {
    |n.entries| > 1 && Chosen(n, info) && (n.isLeaf ==> PickedInLeaf(n.entries, info))
  }

  ghost predicate PickedInLeaf(es: seq<Entry>, info: SeparatorInfo)
    requires |es| > 1
  {
    var lower := WindowLow(|es|);
    var c := CommonPrefix(es[lower].key, es[WindowHigh(|es|)].key);
    if |es[lower].key| == c then info == SeparatorInfo(c, lower, false)
    else exists i :: FirstDiffers(es, lower, c, i) && info == CutAt(es, c, i)
  }

  /** Cut after the first byte that differs; a key that ends there need not be truncated. */
  ghost function CutAt(es: seq<Entry>, c: nat, i: nat): SeparatorInfo
    requires 0 < i < |es|
  {
    if |es[i].key| == c + 1 then SeparatorInfo(c + 1, i, false) else SeparatorInfo(c + 1, i - 1, true)
  }

  lemma PickedUnique(n: Node, a: SeparatorInfo, b: SeparatorInfo)
    requires Picked(n, a) && Picked(n, b)
    ensures a == b
  {
    if n.isLeaf {
      var lower := WindowLow(|n.entries|);
      var c := CommonPrefix(n.entries[lower].key, n.entries[WindowHigh(|n.entries|)].key);
      if |n.entries[lower].key| != c {
        var i :| FirstDiffers(n.entries, lower, c, i) && a == CutAt(n.entries, c, i);
        var j :| FirstDiffers(n.entries, lower, c, j) && b == CutAt(n.entries, c, j);
        assert i == j;
      }
    }
  }

  /** What findSeparator's choice comes to. An inner page is cut in the middle by a whole key. In a leaf the separator is
      from the middle sixteenth, parts the two sides, and ends with the byte by which the key it is taken from is the first
      of the window to differ. */
  lemma PickedMeans(n: Node, info: SeparatorInfo)
    requires Picked(n, info) && Sorted(n.entries)
    ensures var es := n.entries; var low := |es| / 2 - |es| / 32; var high := low + |es| / 16;
      && info.Source() < |es| && info.length <= |es[info.Source()].key|
      && if !n.isLeaf then info.slot == |es| / 2 - 1 && !info.isTruncated && info.length == |es[info.slot].key|
         else
           var sep := es[info.Source()].key[..info.length];
           && low <= info.slot && info.Source() <= high < |es|
           && LessEq(es[info.slot].key, sep) && (info.slot + 1 < |es| ==> Less(sep, es[info.slot + 1].key))
           && LessEq(es[low].key, sep) && LessEq(sep, es[high].key)
           && (forall j | low <= j < info.Source() :: info.length <= CommonPrefix(es[low].key, es[j].key))
           && (info.isTruncated <==> info.length < |es[info.Source()].key|)
  {
    if n.isLeaf {
      FirstToDiffer(n.entries, info);
    }
  }

  /** No string between the ends of the window is shorter. */
  lemma NoneShorter(n: Node, info: SeparatorInfo, t: Key)
    requires Picked(n, info) && n.isLeaf
    requires var c := |n.entries|; LessEq(n.entries[c / 2 - c / 32].key, t) && LessEq(t, n.entries[c / 2 - c / 32 + c / 16].key)
    ensures info.length <= |t|
  {
    var low, high := WindowLow(|n.entries|), WindowHigh(|n.entries|);
    assert ShorterBetween(n.entries[low].key, n.entries[high].key, SepKey(n.entries, info), t);
  }

  lemma FirstToDiffer(es: seq<Entry>, info: SeparatorInfo)
    requires |es| > 1 && Sorted(es) && PickedInLeaf(es, info) && info.Source() <= WindowHigh(|es|)
    ensures info.Source() < |es| && (info.isTruncated <==> info.length < |es[info.Source()].key|)
    ensures forall j | WindowLow(|es|) <= j < info.Source() :: info.length <= CommonPrefix(es[WindowLow(|es|)].key, es[j].key)
  {
    var low, high := WindowLow(|es|), WindowHigh(|es|);
    var c := CommonPrefix(es[low].key, es[high].key);
    if |es[low].key| != c {
      var i: nat :| FirstDiffers(es, low, c, i) && info == CutAt(es, c, i);
      forall j: nat | low <= j < i ensures info.length <= CommonPrefix(es[low].key, es[j].key) { SharesUpTo(es, low, j, high); }
    }
  }

  lemma SharesUpTo(es: seq<Entry>, low: nat, j: nat, high: nat)
    requires Sorted(es) && low <= j <= high < |es|
    requires var c := CommonPrefix(es[low].key, es[high].key); c < |es[low].key| && c < |es[j].key| && es[j].key[c] == es[low].key[c]
    ensures CommonPrefix(es[low].key, es[high].key) < CommonPrefix(es[low].key, es[j].key)
  {
    var a, b, c := es[low].key, es[j].key, CommonPrefix(es[low].key, es[high].key);
    InWindow(es, low, j, high);
    assert a[..c + 1] == a[..c] + [a[c]] && b[..c + 1] == b[..c] + [b[c]];
    CommonPrefixAtLeast(a, b, c + 1);
  }

  lemma SortedLessEq(es: seq<Entry>, i: nat, j: nat)
    requires Sorted(es) && i <= j < |es|
    ensures LessEq(es[i].key, es[j].key)
  {
    if i < j { assert InOrder(es, i, j); }
  }

  /** The keys of the window share what its ends share, and none is smaller than the first at the next byte. */
  lemma InWindow(es: seq<Entry>, lower: nat, i: nat, upper: nat)
    requires Sorted(es) && lower <= i <= upper < |es|
    ensures var c := CommonPrefix(es[lower].key, es[upper].key);
      && c <= |es[i].key| && c <= |es[lower].key| && es[i].key[..c] == es[lower].key[..c]
      && (c < |es[lower].key| ==> c < |es[i].key| && es[lower].key[c] <= es[i].key[c])
  {
    SortedLessEq(es, lower, i);
    SortedLessEq(es, i, upper);
    StringInWindow(es[lower].key, es[upper].key, es[i].key);
  }

  lemma StringInWindow(a: Key, b: Key, t: Key)
    requires LessEq(a, t) && LessEq(t, b)
    ensures var c := CommonPrefix(a, b);
      && c <= |t| && t[..c] == a[..c] && (c < |a| ==> c < |t| && a[c] <= t[c])
  {
    var c := CommonPrefix(a, b);
    BetweenSharesPrefix(a, t, b, c);
    if a != t {
      CommonPrefixAtLeast(a, t, c);
    }
  }

  /** A string of the window that goes at most one byte past what the ends share is a shortest one. */
  lemma ShortestIs(a: Key, b: Key, s: Key)
    requires LessEq(a, s) && LessEq(s, b)
    requires var c := CommonPrefix(a, b); |s| == c || (c < |a| && |s| == c + 1)
    ensures Shortest(a, b, s)
  {
    forall t: Key ensures ShorterBetween(a, b, s, t) {
      if LessEq(a, t) && LessEq(t, b) {
        StringInWindow(a, b, t);
      }
    }
  }

  /** The first key whose byte after the shared ones differs: cut after that byte it parts the two sides. */
  lemma CutBetween(a: Key, b: Key, c: nat)
    requires c < |a| && c < |b| && a[..c] == b[..c] && a[c] < b[c]
    ensures Less(a, b[..c + 1]) && LessEq(b[..c + 1], b) && (c + 1 < |b| ==> Less(b[..c + 1], b))
  {
    assert b[..c + 1][..c] == b[..c];
    CommonPrefixIs(a, b[..c + 1], c);
    PrefixLess(b, c + 1);
  }

  /** The separator the leaf search settles on at slot i. */
  lemma FoundAt(es: seq<Entry>, i: nat, info: SeparatorInfo)
    requires Sorted(es) && |es| > 1
    requires WindowLow(|es|) < i <= WindowHigh(|es|) && info.Source() < |es| && info.length <= |es[info.Source()].key|
    requires var c := CommonPrefix(es[WindowLow(|es|)].key, es[WindowHigh(|es|)].key);
      FirstDiffers(es, WindowLow(|es|), c, i) && info == CutAt(es, c, i)
    ensures ChosenInLeaf(es, info) && PickedInLeaf(es, info)
  {
    var lower, upper := WindowLow(|es|), WindowHigh(|es|);
    var c := CommonPrefix(es[lower].key, es[upper].key);
    InWindow(es, lower, i, upper);
    InWindow(es, lower, i - 1, upper);
    CutBetween(es[i - 1].key, es[i].key, c);
    SortedLessEq(es, lower, i - 1);
    SortedLessEq(es, i, upper);
    var s := es[i].key[..c + 1];
    LessEqTrans(es[lower].key, es[i - 1].key, s);
    LessEqTrans(s, es[i].key, es[upper].key);
    ShortestIs(es[lower].key, es[upper].key, s);
    assert SepKey(es, info) == s;
    if !info.isTruncated {
      assert s == es[i].key;
      if i + 1 < |es| { assert InOrder(es, i, i + 1); }
    }
  }

  /** The first key of the window itself is a shortest string when it has nothing beyond what the ends share. */
  lemma FoundFirst(es: seq<Entry>)
    requires Sorted(es) && |es| > 1
    requires |es[WindowLow(|es|)].key| == CommonPrefix(es[WindowLow(|es|)].key, es[WindowHigh(|es|)].key)
    ensures var info := SeparatorInfo(|es[WindowLow(|es|)].key|, WindowLow(|es|), false);
      ChosenInLeaf(es, info) && PickedInLeaf(es, info)
  {
    var lower, upper := WindowLow(|es|), WindowHigh(|es|);
    SortedLessEq(es, lower, upper);
    ShortestIs(es[lower].key, es[upper].key, es[lower].key);
    assert es[lower].key[..|es[lower].key|] == es[lower].key;
    if lower + 1 < |es| { assert InOrder(es, lower, lower + 1); }
  }

  /** What findSeparator picks can be split at, and the separator is no longer than the keys next to it. */
  lemma ChosenSplits(n: Node, info: SeparatorInfo)
    requires Ordered(n) && Chosen(n, info) && |n.entries| >= 2 && (!n.isLeaf ==> |n.entries| >= 4)
    ensures SplitsAt(n, info.slot, SepKey(n.entries, info))
    ensures |SepKey(n.entries, info)| <= |n.entries[info.slot].key|
    ensures info.slot + 1 < |n.entries| || (n.isLeaf && |n.entries| == 2)
  {
    var es := n.entries;
    var s := SepKey(es, info);
    if n.isLeaf {
      var lower, upper := WindowLow(|es|), WindowHigh(|es|);
      SortedLessEq(es, lower, info.slot);
      SortedLessEq(es, info.slot, upper);
      assert ShorterBetween(es[lower].key, es[upper].key, s, es[info.slot].key);
      assert Within(n.lower, n.upper, es[lower].key) && Within(n.lower, n.upper, es[upper].key);
      WithinBetween(n.lower, n.upper, es[lower].key, s, es[upper].key);
    } else {
      assert s == es[info.slot].key;
    }
  }

  lemma SeparatorHasPrefix(n: Node, info: SeparatorInfo)
    requires Ordered(n) && Chosen(n, info) && info.slot < |n.entries|
    ensures PrefixLength(n) <= info.length
  {
    var es := n.entries;
    KeysHavePrefix(n);
    if n.isLeaf {
      var lower, upper := WindowLow(|es|), WindowHigh(|es|);
      var s := SepKey(es, info);
      assert Within(n.lower, n.upper, es[lower].key) && Within(n.lower, n.upper, es[upper].key);
      WithinBetween(n.lower, n.upper, es[lower].key, s, es[upper].key);
      WithinSharesPrefix(n.lower, n.upper, s);
    }
  }

  lemma WithinBetween(lower: Key, upper: Key, a: Key, s: Key, b: Key)
    requires Within(lower, upper, a) && Within(lower, upper, b) && LessEq(a, s) && LessEq(s, b)
    ensures Within(lower, upper, s)
  {
    if lower != [] { LessEqTrans(lower, a, s); }
    if upper != [] { LessEqTrans(s, b, upper); }
  }

  lemma SeparatorNotEmpty(n: Node, slot: nat, sep: Key)
    requires Ordered(n) && 1 <= slot < |n.entries| && LessEq(n.entries[slot].key, sep)
    ensures sep != []
  {
    assert InOrder(n.entries, 0, slot);
    EmptyLeast(n.entries[0].key);
    EmptyLeast(n.entries[slot].key);
  }

  lemma SortedPrefix(es: seq<Entry>, k: nat)
    requires Sorted(es) && k <= |es|
    ensures Sorted(es[..k]) && Sorted(es[k..])
  {
    SortedSlice(es, 0, k);
    SortedSlice(es, k, |es|);
    assert es[0..k] == es[..k] && es[k..|es|] == es[k..];
  }

  /** All entries up to slot are at most sep, all later ones above it. */
  lemma SplitOrder(n: Node, slot: nat, sep: Key)
    requires Ordered(n) && slot < |n.entries|
    requires LessEq(n.entries[slot].key, sep) && (slot + 1 < |n.entries| ==> Less(sep, n.entries[slot + 1].key))
    ensures forall i | 0 <= i <= slot :: LessEq(n.entries[i].key, sep)
    ensures forall i | slot < i < |n.entries| :: Less(sep, n.entries[i].key)
  {
    forall i | 0 <= i < slot ensures LessEq(n.entries[i].key, sep) {
      assert InOrder(n.entries, i, slot);
      LessEqTrans(n.entries[i].key, n.entries[slot].key, sep);
    }
    forall i | slot + 1 < i < |n.entries| ensures Less(sep, n.entries[i].key) {
      assert InOrder(n.entries, slot + 1, i);
      LessEqTrans(sep, n.entries[slot + 1].key, n.entries[i].key);
    }
  }

  lemma SplitSeparates(n: Node, slot: nat, sep: Key)
    requires Ordered(n) && SplitsAt(n, slot, sep)
    ensures Separates(n, slot, sep) && sep != []
  {
    if !n.isLeaf && slot + 1 < |n.entries| {
      assert InOrder(n.entries, slot, slot + 1);
    }
    SeparatorNotEmpty(n, slot, sep);
  }

  /** Both halves of a split are ordered pages again, with the separator as their common fence. */
  lemma SplitOrdered(n: Node, slot: nat, sep: Key)
    requires Ordered(n) && SplitsAt(n, slot, sep)
    ensures Ordered(SplitLeft(n, slot, sep)) && Ordered(SplitRight(n, slot, sep))
  {
    SplitSeparates(n, slot, sep);
    SplitOrder(n, slot, sep);
    SortedPrefix(n.entries, slot);
    SortedPrefix(n.entries, slot + 1);
    WithinLower(n, sep, if n.isLeaf then slot + 1 else slot);
    WithinUpper(n, sep, slot + 1);
  }

  /** The first k entries, at most sep, are within the fences of a left half. */
  lemma WithinLower(n: Node, sep: Key, k: nat)
    requires Ordered(n) && k <= |n.entries| && forall i | 0 <= i < k :: LessEq(n.entries[i].key, sep)
    ensures AllWithin(n.entries[..k], n.lower, sep)
  {
    forall i | 0 <= i < k ensures Within(n.lower, sep, n.entries[..k][i].key) {
      assert Within(n.lower, n.upper, n.entries[i].key);
    }
  }

  lemma WithinUpper(n: Node, sep: Key, k: nat)
    requires Ordered(n) && k <= |n.entries| && forall i | k <= i < |n.entries| :: Less(sep, n.entries[i].key)
    ensures AllWithin(n.entries[k..], sep, n.upper)
  {
    forall i | 0 <= i < |n.entries| - k ensures Within(sep, n.upper, n.entries[k..][i].key) {
      assert Within(n.lower, n.upper, n.entries[k + i].key);
    }
  }

  /** The parts of a page that lie between its fences share at least its prefix. */
  lemma PrefixGrows(lower: Key, upper: Key, a: Key, b: Key)
    requires Within(lower, upper, a) || a == lower
    requires Within(lower, upper, b) || b == upper
    ensures CommonPrefix(lower, upper) <= CommonPrefix(a, b)
    ensures CommonPrefix(lower, upper) <= |a| && CommonPrefix(lower, upper) <= |b|
  {
    var p := CommonPrefix(lower, upper);
    if Within(lower, upper, a) { WithinSharesPrefix(lower, upper, a); }
    if Within(lower, upper, b) { WithinSharesPrefix(lower, upper, b); }
    assert a[..p] == lower[..p] == upper[..p] == b[..p];
    CommonPrefixAtLeast(a, b, p);
  }

  lemma CommonPrefixAtLeast(a: Key, b: Key, p: nat)
    requires p <= |a| && p <= |b| && a[..p] == b[..p]
    ensures p <= CommonPrefix(a, b)
  {
    var n := CommonPrefix(a, b);
    assert forall i | 0 <= i < p :: a[..p][i] == b[..p][i];
  }

  /** Keeping a consecutive part of a page's entries between fences inside it cannot take more key bytes. */
  lemma PartSize(n: Node, lo: nat, hi: nat, a: Key, b: Key)
    requires Ordered(n) && lo <= hi <= |n.entries|
    requires CommonPrefix(n.lower, n.upper) <= CommonPrefix(a, b)
    ensures StoredSize(n.entries[lo..hi], CommonPrefix(a, b)) <= StoredSize(n.entries[lo..hi], PrefixLength(n))
  {
    StoredSizeShift(n.entries[lo..hi], CommonPrefix(a, b), PrefixLength(n));
    MulSign(PrefixLength(n) - CommonPrefix(a, b), hi - lo);
  }

  lemma KeysHavePrefix(n: Node)
    requires Ordered(n)
    ensures forall i | 0 <= i < |n.entries| :: PrefixLength(n) <= |n.entries[i].key|
    ensures PrefixLength(n) <= |n.lower| && PrefixLength(n) <= |n.upper|
  {
    forall i | 0 <= i < |n.entries| ensures PrefixLength(n) <= |n.entries[i].key| {
      WithinSharesPrefix(n.lower, n.upper, n.entries[i].key);
    }
  }

  /** Stored size before, at and after a slot. */
  lemma AroundSlot(es: seq<Entry>, slot: nat, p: nat)
    requires slot < |es|
    ensures StoredSize(es, p) == StoredSize(es[..slot], p) + |es[slot].key| - p + |es[slot].payload| + StoredSize(es[slot + 1..], p)
  {
    assert es == es[..slot] + es[slot..];
    StoredSizeConcat(es[..slot], es[slot..], p);
    StoredSizeFirst(es, slot, p);
  }

  /** Bytes the entries from k on occupy, slots included. */
  ghost function BytesFrom(n: Node, k: nat): int
    requires k <= |n.entries|
  {
    SlotBytes(|n.entries| - k) + StoredSize(n.entries[k..], PrefixLength(n))
  }

  /** Entries of a part with fences a and b inside the page's take no more than they did. */
  lemma PartSpace(n: Node, part: Node, lo: nat, hi: nat)
    requires Ordered(n) && lo <= hi <= |n.entries| && part.entries == n.entries[lo..hi]
    requires part.lower == n.lower || Within(n.lower, n.upper, part.lower)
    requires part.upper == n.upper || Within(n.lower, n.upper, part.upper)
    ensures SpaceUsed(part) <= |part.lower| + |part.upper| + StoredSize(n.entries[lo..hi], PrefixLength(n))
  {
    PrefixGrows(n.lower, n.upper, part.lower, part.upper);
    PartSize(n, lo, hi, part.lower, part.upper);
  }

  /** Sizes of a page's entries around a slot, none negative. */
  lemma SizesAround(n: Node, slot: nat)
    requires Ordered(n) && slot < |n.entries|
    ensures var p := PrefixLength(n); var es := n.entries;
      && StoredSize(es, p) == StoredSize(es[..slot], p) + |es[slot].key| - p + |es[slot].payload| + StoredSize(es[slot + 1..], p)
      && StoredSize(es[..slot], p) >= 0 && StoredSize(es[slot + 1..], p) >= 0
      && p <= |es[slot].key| && p <= |n.lower| && p <= |n.upper|
    ensures SlotBytes(|n.entries|) == SlotBytes(slot) + sizes.slot + SlotBytes(|n.entries| - slot - 1)
  {
    KeysHavePrefix(n);
    AroundSlot(n.entries, slot, PrefixLength(n));
    StoredSizeNonNegative(n.entries[..slot], PrefixLength(n));
    StoredSizeNonNegative(n.entries[slot + 1..], PrefixLength(n));
    SlotBytesAdd(slot + 1, |n.entries| - slot - 1);
  }

  lemma SizesSplit(n: Node, k: nat)
    requires k <= |n.entries|
    ensures var p := PrefixLength(n);
      StoredSize(n.entries, p) == StoredSize(n.entries[..k], p) + StoredSize(n.entries[k..], p)
    ensures SlotBytes(|n.entries|) == SlotBytes(k) + SlotBytes(|n.entries| - k)
  {
    assert n.entries == n.entries[..k] + n.entries[k..];
    StoredSizeConcat(n.entries[..k], n.entries[k..], PrefixLength(n));
    SlotBytesAdd(k, |n.entries| - k);
  }

  /** The right half of a split always fits. */
  lemma RightHalfFits(n: Node, slot: nat, sep: Key)
    requires Ordered(n) && Fits(n) && SplitsAt(n, slot, sep)
    requires |sep| <= |n.entries[slot].key|
    ensures Fits(SplitRight(n, slot, sep))
  {
    SplitSeparates(n, slot, sep);
    assert n.entries[slot + 1..|n.entries|] == n.entries[slot + 1..];
    PartSpace(n, SplitRight(n, slot, sep), slot + 1, |n.entries|);
    SizesAround(n, slot);
  }

  /** The left half of an inner split always fits: the separator's own entry leaves. */
  lemma InnerLeftHalfFits(n: Node, slot: nat, sep: Key)
    requires Ordered(n) && Fits(n) && !n.isLeaf && SplitsAt(n, slot, sep)
    ensures Fits(SplitLeft(n, slot, sep))
  {
    SplitSeparates(n, slot, sep);
    assert n.entries[0..slot] == n.entries[..slot];
    PartSpace(n, SplitLeft(n, slot, sep), 0, slot);
    SizesAround(n, slot);
  }

  /** The left half of a leaf split fits when what leaves to the right takes at least as many bytes as the
      separator, stored in full, has beyond the page's prefix. */
  lemma LeafLeftHalfFits(n: Node, slot: nat, sep: Key)
    requires Ordered(n) && Fits(n) && n.isLeaf && SplitsAt(n, slot, sep)
    requires |sep| - PrefixLength(n) <= BytesFrom(n, slot + 1)
    ensures Fits(SplitLeft(n, slot, sep))
  {
    LeafLeftHalfSpace(n, slot, sep, SplitLeft(n, slot, sep));
  }

  lemma LeafLeftHalfSpace(n: Node, slot: nat, sep: Key, part: Node)
    requires Ordered(n) && Fits(n) && n.isLeaf && SplitsAt(n, slot, sep)
    requires |sep| - PrefixLength(n) <= BytesFrom(n, slot + 1)
    requires part.isLeaf && part.lower == n.lower && part.upper == sep && part.entries == n.entries[0..slot + 1]
    ensures Fits(part)
  {
    SplitSeparates(n, slot, sep);
    KeysHavePrefix(n);
    PartSpace(n, part, 0, slot + 1);
    PartFits(n, part, slot + 1);
  }

  lemma PartFits(n: Node, part: Node, k: nat)
    requires Fits(n) && n.isLeaf && part.isLeaf && part.lower == n.lower && PrefixLength(n) <= |n.upper|
    requires k <= |n.entries| && part.entries == n.entries[0..k]
    requires SpaceUsed(part) <= |part.lower| + |part.upper| + StoredSize(n.entries[0..k], PrefixLength(n))
    requires |part.upper| - PrefixLength(n) <= BytesFrom(n, k)
    ensures Fits(part)
  {
    SizesSplit(n, k);
    assert n.entries[..k] == part.entries;
  }

  /** In particular when the separator is cut from the first key on the right. */
  lemma TruncatedLeftHalfFits(n: Node, slot: nat, sep: Key)
    requires Ordered(n) && Fits(n) && n.isLeaf && SplitsAt(n, slot, sep)
    requires slot + 1 < |n.entries| && |sep| <= |n.entries[slot + 1].key|
    ensures Fits(SplitLeft(n, slot, sep))
  {
    TruncatedIsSmall(n, slot);
    LeafLeftHalfFits(n, slot, sep);
  }

  lemma TruncatedIsSmall(n: Node, slot: nat)
    requires Ordered(n) && slot + 1 < |n.entries|
    ensures |n.entries[slot + 1].key| - PrefixLength(n) <= BytesFrom(n, slot + 1)
  {
    KeysHavePrefix(n);
    StoredSizeNonNegative(n.entries[slot + 2..], PrefixLength(n));
    FirstIsSmall(n, slot + 1);
  }

  lemma FirstIsSmall(n: Node, k: nat)
    requires k < |n.entries| && StoredSize(n.entries[k + 1..], PrefixLength(n)) >= 0
    ensures |n.entries[k].key| - PrefixLength(n) <= BytesFrom(n, k)
  {
    StoredSizeFirst(n.entries, k, PrefixLength(n));
  }

  // ---- merging ----

  /** The merge of two neighbouring leaves is an ordered page again. */
  lemma MergeOrdered(l: Node, r: Node)
    requires Ordered(l) && Ordered(r) && l.upper == r.lower != []
    ensures Ordered(Merge(l, r))
    ensures CommonPrefix(l.lower, r.upper) <= PrefixLength(l) && CommonPrefix(l.lower, r.upper) <= PrefixLength(r)
  {
    var m := Merge(l, r);
    if r.upper != [] {
      LessEqTrans(l.lower, l.upper, r.upper);
      BetweenSharesPrefix(l.lower, l.upper, r.upper, CommonPrefix(l.lower, r.upper));
    }
    var c := CommonPrefix(l.lower, r.upper);
    if r.upper != [] {
      assert l.lower[..c] == l.upper[..c] == r.upper[..c];
      CommonPrefixAtLeast(l.lower, l.upper, c);
      CommonPrefixAtLeast(r.lower, r.upper, c);
    }
    forall i | 0 <= i < |m.entries| ensures Within(m.lower, m.upper, m.entries[i].key) {
      var k := m.entries[i].key;
      if i < |l.entries| {
        assert k == l.entries[i].key;
        if r.upper != [] { LessEqTrans(k, l.upper, r.upper); }
      } else {
        assert k == r.entries[i - |l.entries|].key;
        LessEqTrans(l.lower, l.upper, k);
      }
    }
    forall i, j | 0 <= i < j < |m.entries| ensures InOrder(m.entries, i, j) {
      if j < |l.entries| {
        assert InOrder(l.entries, i, j);
      } else if |l.entries| <= i {
        assert InOrder(r.entries, i - |l.entries|, j - |l.entries|);
      } else {
        LessEqTrans(m.entries[i].key, l.upper, m.entries[j].key);
      }
    }
  }

  /** Space of a merge: what the parts use, plus what their keys grow by, minus the fence in the middle twice. */
  lemma MergeSpace(l: Node, r: Node, p: nat)
    requires p == CommonPrefix(l.lower, r.upper)
    ensures SpaceUsed(Merge(l, r)) ==
      SpaceUsed(l) + SpaceUsed(r) + (PrefixLength(l) - p) * |l.entries| + (PrefixLength(r) - p) * |r.entries| - |l.upper| - |r.lower|
  {
    StoredSizeConcat(l.entries, r.entries, p);
    StoredSizeShift(l.entries, p, PrefixLength(l));
    StoredSizeShift(r.entries, p, PrefixLength(r));
  }

  lemma AllStartWithFencePrefix(n: Node, es: seq<Entry>, from: nat)
    requires Ordered(n) && from + |es| <= |n.entries| && es == n.entries[from..from + |es|]
    ensures AllStartWith(es, FencePrefix(n.lower, n.upper))
  {
    forall i | 0 <= i < |es| ensures StartsWith(es[i], FencePrefix(n.lower, n.upper)) {
      assert es[i] == n.entries[from + i];
      WithinSharesPrefix(n.lower, n.upper, n.entries[from + i].key);
    }
  }

  lemma WholeIsRange(es: seq<Entry>)
    ensures HasRange(es, 0, es)
  {
    assert es[0..0 + |es|] == es;
    SliceIsRange(es, 0, |es|);
  }

  /** Room left in a page with fences of m that already holds the first k entries of m. */
  function OffsetAfter(m: Node, size: int): int {
    PageSize(m.isLeaf) - |m.lower| - |m.upper| - size
  }

  lemma RoomForFirst(m: Node, a: seq<Entry>, b: seq<Entry>)
    requires Fits(m) && m.entries == a + b && StoredSize(b, PrefixLength(m)) >= 0
    ensures RoomFor(a, 0, PrefixLength(m), |a|, OffsetAfter(m, 0))
    ensures RoomFor(b, 0, PrefixLength(m), |a| + |b|, OffsetAfter(m, StoredSize(a, PrefixLength(m))))
  {
    var p := PrefixLength(m);
    StoredSizeConcat(a, b, p);
    SlotBytesAdd(|a|, |b|);
    assert a[0..] == a && b[0..] == b;
    RoomForIs(a, 0, p, |a|, OffsetAfter(m, 0));
    RoomForIs(b, 0, p, |a| + |b|, OffsetAfter(m, StoredSize(a, p)));
  }

  /** A fresh page with the fences of m, holding entries of size bytes in slots slots, has room for es as well,
      which are the entries of all from from on. */
  ghost predicate RoomIn(m: Node, size: int, slots: nat, all: seq<Entry>, from: nat, es: seq<Entry>) {
    && AllStartWith(es, FencePrefix(m.lower, m.upper)) && HasRange(all, from, es)
    && RoomFor(es, 0, PrefixLength(m), slots + |es|, OffsetAfter(m, size))
  }

  /** A fresh page with the outer fences has room for the entries of both leaves when their merge fits. */
  lemma MergeRoom(l: Node, r: Node)
    requires Ordered(l) && Ordered(r) && l.upper == r.lower != [] && Fits(Merge(l, r))
    ensures var m := Merge(l, r);
      RoomIn(m, 0, 0, l.entries, 0, l.entries)
      && RoomIn(m, StoredSize(l.entries, PrefixLength(m)), |l.entries|, r.entries, 0, r.entries)
  {
    var m := Merge(l, r);
    MergeOrdered(l, r);
    assert m.entries[0..|l.entries|] == l.entries;
    assert m.entries[|l.entries|..|l.entries| + |r.entries|] == r.entries;
    AllStartWithFencePrefix(m, l.entries, 0);
    AllStartWithFencePrefix(m, r.entries, |l.entries|);
    MergeRoomParts(m, l.entries, r.entries);
  }

  lemma MergeRoomParts(m: Node, a: seq<Entry>, b: seq<Entry>)
    requires AllStartWith(a, FencePrefix(m.lower, m.upper)) && AllStartWith(b, FencePrefix(m.lower, m.upper))
    requires Fits(m) && m.entries == a + b
    ensures RoomIn(m, 0, 0, a, 0, a) && RoomIn(m, StoredSize(a, PrefixLength(m)), |a|, b, 0, b)
  {
    assert forall i | 0 <= i < |b| :: StartsWith(b[i], FencePrefix(m.lower, m.upper));
    StoredSizeNonNegative(b, PrefixLength(m));
    RoomForFirst(m, a, b);
    WholeIsRange(a);
    WholeIsRange(b);
  }

  /** A fresh page with the fences of a part has room for its entries when the part fits. */
  lemma PartRoom(part: Node, all: seq<Entry>, from: nat)
    requires Ordered(part) && Fits(part)
    requires from + |part.entries| <= |all| && part.entries == all[from..from + |part.entries|]
    ensures RoomIn(part, 0, 0, all, from, part.entries)
    ensures sizes.header + |part.lower| + |part.upper| <= PageSize(part.isLeaf)
  {
    assert part.entries[0..|part.entries|] == part.entries;
    AllStartWithFencePrefix(part, part.entries, 0);
    SliceIsRange(all, from, |part.entries|);
    PartFences(part);
    assert part.entries == part.entries + [];
    RoomForFirst(part, part.entries, []);
  }

  lemma PartFences(part: Node)
    requires AllStartWith(part.entries, FencePrefix(part.lower, part.upper)) && Fits(part)
    ensures sizes.header + |part.lower| + |part.upper| <= PageSize(part.isLeaf)
  {
    assert forall i | 0 <= i < |part.entries| :: StartsWith(part.entries[i], FencePrefix(part.lower, part.upper));
    StoredSizeNonNegative(part.entries, PrefixLength(part));
  }

  /** Bytes by which count keys grow when their prefix shrinks. */
  function Growth(prefix: nat, newPrefix: nat, count: nat): int {
    (prefix - newPrefix) * count
  }

  /** The bound mergeNodes checks: what the merge would use, plus the fence between the leaves twice. */
  lemma MergeBound(l: Node, r: Node, p: nat)
    requires l.isLeaf && r.isLeaf && Ordered(l) && Ordered(r) && l.upper == r.lower != []
    requires p == CommonPrefix(l.lower, r.upper)
    ensures p <= PrefixLength(l) && p <= PrefixLength(r)
    ensures SpaceUsed(l) + SpaceUsed(r) + sizes.header + SlotBytes(|l.entries| + |r.entries|)
            + Growth(PrefixLength(l), p, |l.entries|) + Growth(PrefixLength(r), p, |r.entries|)
         == PageSize(true) - FreeAfterCompaction(Merge(l, r)) + |l.upper| + |r.lower|
  {
    MergeOrdered(l, r);
    MergeSpace(l, r, p);
  }
}
