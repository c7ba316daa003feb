/** The abstract value of one page and what each page operation does to it. */
module Nodes {
  import opened Bytes
  import opened Layout

  /** An address of a page; 0 is the null pointer. */
  type Address = a: int | 0 <= a < 0x1_0000_0000_0000_0000

  datatype Entry = Entry(key: Key, payload: seq<Byte>)

  /** A page: its fences (lower exclusive, upper inclusive, empty means unbounded) and its entries
      with full keys. In an inner page a payload is the address of the child for keys up to that
      entry's key, and upperChild is the child above all entries. */
  datatype Node = Node(isLeaf: bool, lower: Key, upper: Key, entries: seq<Entry>, upperChild: Address)

  // ---- keys and order ----

  ghost predicate Within(lower: Key, upper: Key, k: Key) {
    (lower == [] || Less(lower, k)) && (upper == [] || LessEq(k, upper))
  }

  ghost predicate Sorted(es: seq<Entry>) {
    forall i, j | 0 <= i < j < |es| :: InOrder(es, i, j)
  }

  ghost predicate InOrder(es: seq<Entry>, i: nat, j: nat)
    requires i < |es| && j < |es|
  {
    Less(es[i].key, es[j].key)
  }

  ghost predicate AllWithin(es: seq<Entry>, lower: Key, upper: Key) {
    forall i | 0 <= i < |es| :: Within(lower, upper, es[i].key)
  }

  /** Fences in order; entries strictly sorted and inside the fences. */
  ghost predicate Ordered(n: Node) {
    && (n.upper == [] || LessEq(n.lower, n.upper))
    && Sorted(n.entries)
    && AllWithin(n.entries, n.lower, n.upper)
  }

  /** Number of leading bytes all keys of the page share because the fences do. */
  ghost function PrefixLength(n: Node): nat {
    CommonPrefix(n.lower, n.upper)
  }

  ghost function FencePrefix(lower: Key, upper: Key): Key {
    lower[..CommonPrefix(lower, upper)]
  }

  lemma WithinSharesPrefix(lower: Key, upper: Key, k: Key)
    requires Within(lower, upper, k)
    ensures FencePrefix(lower, upper) <= k
  {
    if lower != [] && upper != [] {
      BetweenSharesPrefix(lower, k, upper, CommonPrefix(lower, upper));
    }
  }

  /** pos is where k belongs: everything before is smaller, nothing from pos on is. */
  ghost predicate IsLowerBound(es: seq<Entry>, k: Key, pos: int) {
    && 0 <= pos <= |es|
    && (forall i | 0 <= i < pos :: Less(es[i].key, k))
    && (forall i | pos <= i < |es| :: LessEq(k, es[i].key))
  }

  lemma SortedSlice(es: seq<Entry>, lo: nat, hi: nat)
    requires Sorted(es) && lo <= hi <= |es|
    ensures Sorted(es[lo..hi])
  {
    forall i, j | 0 <= i < j < hi - lo
      ensures InOrder(es[lo..hi], i, j)
    {
      assert InOrder(es, lo + i, lo + j);
    }
  }

  lemma {:induction false} LowerBoundExists(es: seq<Entry>, k: Key)
    requires Sorted(es)
    ensures exists pos: nat :: IsLowerBound(es, k, pos)
  {
    if |es| == 0 {
      assert IsLowerBound(es, k, 0);
    } else if Less(es[|es| - 1].key, k) {
      forall i | 0 <= i < |es| - 1 ensures Less(es[i].key, k) {
        assert InOrder(es, i, |es| - 1);
        LessTrans(es[i].key, es[|es| - 1].key, k);
      }
      assert IsLowerBound(es, k, |es|);
    } else {
      LessTotal(es[|es| - 1].key, k);
      SortedSlice(es, 0, |es| - 1);
      LowerBoundExists(es[..|es| - 1], k);
      var pos: nat :| IsLowerBound(es[..|es| - 1], k, pos);
      assert forall i | 0 <= i < |es| - 1 :: es[i] == es[..|es| - 1][i];
      assert IsLowerBound(es, k, pos);
    }
  }

  ghost function LowerBound(es: seq<Entry>, k: Key): (pos: nat)
    requires Sorted(es)
    ensures IsLowerBound(es, k, pos)
  {
    LowerBoundExists(es, k);
    var pos: nat :| IsLowerBound(es, k, pos);
    pos
  }

  lemma DistinctKeys(es: seq<Entry>, i: nat, j: nat)
    requires Sorted(es) && i < |es| && j < |es| && i != j
    ensures es[i].key != es[j].key
  {
    LessTotal(es[i].key, es[j].key);
    LessTotal(es[j].key, es[j].key);
    if i < j { assert InOrder(es, i, j); } else { assert InOrder(es, j, i); }
  }

  lemma AllBelow(es: seq<Entry>, k: Key, mid: nat)
    requires Sorted(es) && mid < |es| && Less(es[mid].key, k)
    ensures forall i | 0 <= i <= mid :: Less(es[i].key, k)
  {
    forall i | 0 <= i < mid ensures Less(es[i].key, k) {
      assert InOrder(es, i, mid);
      LessTrans(es[i].key, es[mid].key, k);
    }
  }

  lemma AllAbove(es: seq<Entry>, k: Key, mid: nat)
    requires Sorted(es) && mid < |es| && LessEq(k, es[mid].key)
    ensures forall i | mid < i < |es| :: Less(k, es[i].key)
  {
    forall i | mid < i < |es| ensures Less(k, es[i].key) {
      assert InOrder(es, mid, i);
      LessEqTrans(k, es[mid].key, es[i].key);
    }
  }

  /** A key that is not at its lower bound is nowhere. */
  lemma AbsentAt(es: seq<Entry>, k: Key, pos: nat)
    requires Sorted(es) && IsLowerBound(es, k, pos) && (pos < |es| ==> es[pos].key != k)
    ensures forall i | 0 <= i < |es| :: es[i].key != k
  {
    forall i | 0 <= i < |es| ensures es[i].key != k {
      LessTotal(k, k);
      if pos < i {
        assert InOrder(es, pos, i);
        LessEqTrans(k, es[pos].key, es[i].key);
      }
    }
  }

  /** Everything before lo is below k, everything from hi on is above k. */
  ghost predicate Brackets(es: seq<Entry>, k: Key, lo: nat, hi: nat) {
    && lo <= hi <= |es|
    && (forall i | 0 <= i < lo :: Less(es[i].key, k))
    && (forall i | hi <= i < |es| :: Less(k, es[i].key))
  }

  lemma BracketsLess(es: seq<Entry>, k: Key, lo: nat, hi: nat, mid: nat)
    requires Sorted(es) && Brackets(es, k, lo, hi) && mid < |es| && lo <= mid <= hi
    requires Less(k, es[mid].key)
    ensures Brackets(es, k, lo, mid)
  {
    AllAbove(es, k, mid);
  }

  lemma BracketsGreater(es: seq<Entry>, k: Key, lo: nat, hi: nat, mid: nat)
    requires Sorted(es) && Brackets(es, k, lo, hi) && mid < hi
    requires Less(es[mid].key, k)
    ensures Brackets(es, k, mid, hi) && Brackets(es, k, mid + 1, hi)
  {
    AllBelow(es, k, mid);
  }

  lemma BracketsFound(es: seq<Entry>, k: Key, mid: nat)
    requires Sorted(es) && mid < |es| && es[mid].key == k
    ensures IsLowerBound(es, k, mid)
  {
    AllAbove(es, k, mid);
    forall i | 0 <= i < mid ensures Less(es[i].key, k) {
      assert InOrder(es, i, mid);
    }
  }

  lemma BracketsClosed(es: seq<Entry>, k: Key, lo: nat)
    requires Brackets(es, k, lo, lo)
    ensures IsLowerBound(es, k, lo)
    ensures lo < |es| ==> es[lo].key != k
  {
    LessTotal(k, k);
  }

  lemma LowerBoundUnique(es: seq<Entry>, k: Key, p: nat, q: nat)
    requires IsLowerBound(es, k, p) && IsLowerBound(es, k, q)
    ensures p == q
  {
    if p < q {
      LessTotal(es[p].key, k);
    } else if q < p {
      LessTotal(es[q].key, k);
    }
  }

  /** The payload stored for k, if any. */
  ghost function Lookup(es: seq<Entry>, k: Key): Option<seq<Byte>>
    requires Sorted(es)
  {
    var pos := LowerBound(es, k);
    if pos < |es| && es[pos].key == k then Some(es[pos].payload) else None
  }

  /** Lookup finds every entry, and only entries. */
  lemma LookupIs(es: seq<Entry>, k: Key)
    requires Sorted(es)
    ensures forall i | 0 <= i < |es| && es[i].key == k :: Lookup(es, k) == Some(es[i].payload)
    ensures Lookup(es, k).Some? ==> exists i :: 0 <= i < |es| && es[i] == Entry(k, Lookup(es, k).value)
  {
    var pos := LowerBound(es, k);
    forall i | 0 <= i < |es| && es[i].key == k
      ensures i == pos
    {
      if i < pos {
        LessTotal(es[i].key, k);
      } else if pos < i {
        assert InOrder(es, pos, i);
        LessTotal(es[pos].key, k);
      }
    }
  }

  datatype Option<+T> = None | Some(value: T)

  // ---- space ----

  /** Bytes of the first n keys without a prefix of that length, and of their payloads. */
  ghost function SizeUpTo(es: seq<Entry>, prefix: nat, n: nat): int
    requires n <= |es|
  {
    if n == 0 then 0
    else SizeUpTo(es, prefix, n - 1) + |es[n - 1].key| - prefix + |es[n - 1].payload|
  }

  ghost function StoredSize(es: seq<Entry>, prefix: nat): int {
    SizeUpTo(es, prefix, |es|)
  }

  /** Bytes taken by fences, keys without the prefix, and payloads. */
  ghost function SpaceUsed(n: Node): int {
    |n.lower| + |n.upper| + StoredSize(n.entries, PrefixLength(n))
  }

  /** Bytes free once the page is compacted; negative when the contents do not fit. */
  ghost function FreeAfterCompaction(n: Node): int {
    PageSize(n.isLeaf) - sizes.header - SlotBytes(|n.entries|) - SpaceUsed(n)
  }

  ghost predicate Fits(n: Node) {
    FreeAfterCompaction(n) >= 0
  }

  /** What insert asks requestSpaceFor. */
  ghost function SpaceNeeded(n: Node, keyLength: nat, payloadLength: nat): int {
    sizes.slot + keyLength - PrefixLength(n) + payloadLength
  }

  // ---- operations ----

  ghost function Inserted<T>(xs: seq<T>, pos: nat, x: T): (r: seq<T>)
    requires pos <= |xs|
    ensures |r| == |xs| + 1
    ensures forall k {:trigger r[k]} | 0 <= k < |r| :: r[k] == if k < pos then xs[k] else if k == pos then x else xs[k - 1]
  {
    xs[..pos] + [x] + xs[pos..]
  }

  ghost function Removed<T>(xs: seq<T>, pos: nat): (r: seq<T>)
    requires pos < |xs|
    ensures |r| == |xs| - 1
    ensures forall k {:trigger r[k]} | 0 <= k < |r| :: r[k] == if k < pos then xs[k] else xs[k + 1]
  {
    xs[..pos] + xs[pos + 1..]
  }

  ghost function InsertEntry(n: Node, e: Entry): Node
    requires Sorted(n.entries)
  {
    n.(entries := Inserted(n.entries, LowerBound(n.entries, e.key), e))
  }

  ghost function RemoveAt(n: Node, pos: nat): Node
    requires pos < |n.entries|
  {
    n.(entries := Removed(n.entries, pos))
  }

  /** Left half of a split after slot: in an inner node the separator's entry itself moves up and its
      child becomes the left half's upper child. */
  function SplitLeft(n: Node, slot: nat, sep: Key): Node
    requires slot < |n.entries|
  {
    if n.isLeaf then Node(true, n.lower, sep, n.entries[..slot + 1], 0)
    else Node(false, n.lower, sep, n.entries[..slot], DecodePtr(n.entries[slot].payload))
  }

  function SplitRight(n: Node, slot: nat, sep: Key): Node
    requires slot < |n.entries|
  {
    Node(n.isLeaf, sep, n.upper, n.entries[slot + 1..], if n.isLeaf then 0 else n.upperChild)
  }

  function Merge(left: Node, right: Node): Node {
    Node(true, left.lower, right.upper, left.entries + right.entries, 0)
  }

  // ---- child pointers as bytes ----

  function EncodeInt(n: nat, x: nat): (bs: seq<Byte>)
    ensures |bs| == n
  {
    if n == 0 then [] else [x % 256] + EncodeInt(n - 1, x / 256)
  }

  function DecodeInt(bs: seq<Byte>): (x: nat) {
    if |bs| == 0 then 0 else bs[0] + 256 * DecodeInt(bs[1..])
  }

  function Pow256(n: nat): nat {
    if n == 0 then 1 else 256 * Pow256(n - 1)
  }

  lemma {:induction false} DecodeEncodeInt(n: nat, x: nat)
    requires x < Pow256(n)
    ensures DecodeInt(EncodeInt(n, x)) == x
  {
    if n > 0 {
      DecodeEncodeInt(n - 1, x / 256);
      assert EncodeInt(n, x)[1..] == EncodeInt(n - 1, x / 256);
    }
  }

  lemma {:induction false} DecodeIntBound(bs: seq<Byte>)
    ensures DecodeInt(bs) < Pow256(|bs|)
  {
    if |bs| > 0 {
      DecodeIntBound(bs[1..]);
    }
  }

  lemma Pow256Of8()
    ensures Pow256(8) == 0x1_0000_0000_0000_0000
  {
    assert Pow256(4) == 0x1_0000_0000;
    assert Pow256(6) == 0x1_0000_0000_0000;
  }

  function EncodePtr(a: Address): (bs: seq<Byte>)
    ensures |bs| == CHILD_BYTES
    ensures DecodePtr(bs) == a
  {
    Pow256Of8();
    DecodeEncodeInt(8, a);
    EncodeInt(8, a)
  }

  /** A payload that is not eight bytes long is not a pointer: read as null. */
  function DecodePtr(bs: seq<Byte>): Address {
    if |bs| == CHILD_BYTES then
      DecodeIntBound(bs);
      Pow256Of8();
      DecodeInt(bs)
    else 0
  }
}
