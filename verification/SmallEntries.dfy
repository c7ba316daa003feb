/** With entries small against the page, no page on an insert's path is ever stuck. */
module SmallEntries {
  import opened Bytes
  import opened Layout
  import opened Nodes
  import opened Separators
  import opened Trees
  import opened TreeSteps
  import opened Splits

  /** Entries of at most m bytes are small: q slots outweigh a separator, and besides two fences a leaf has room for
      3q entries and an inner page for four. */
  ghost predicate Roomy(m: nat, q: nat) {
    && q >= 1 && m <= sizes.slot * q
    && 2 * m + (sizes.slot + m) * (3 * q) <= sizes.leaf - sizes.header
    && 2 * m + (sizes.slot + m + CHILD_BYTES) * 4 <= sizes.inner - sizes.header
  }

  ghost predicate Small(m: nat) {
    exists q: nat :: Roomy(m, q)
  }

  lemma {:induction false} SizeAtMost(es: seq<Entry>, p: nat, n: nat, m: nat)
    requires n <= |es| && forall i | 0 <= i < |es| :: |es[i].key| - p + |es[i].payload| <= m
    ensures SizeUpTo(es, p, n) <= m * n
  {
    if n > 0 {
      SizeAtMost(es, p, n - 1, m);
      assert m * n == m * (n - 1) + m;
    }
  }

  /** Bytes a page of entries of at most e bytes leaves free. */
  lemma FreeAtLeast(n: Node, m: nat, e: nat)
    requires KeysAtMost(n, m) && e == if n.isLeaf then m else m + CHILD_BYTES
    ensures FreeAfterCompaction(n) >= PageSize(n.isLeaf) - sizes.header - 2 * m - (sizes.slot + e) * |n.entries|
  {
    forall i | 0 <= i < |n.entries| ensures |n.entries[i].key| - PrefixLength(n) + |n.entries[i].payload| <= e {
      assert EntryAtMost(n, i, m);
    }
    SizeAtMost(n.entries, PrefixLength(n), |n.entries|, e);
    SlotBytesIs(|n.entries|);
    assert (sizes.slot + e) * |n.entries| == sizes.slot * |n.entries| + e * |n.entries|;
  }

  /** A full page holds many entries. */
  lemma FullHasMany(n: Node, m: nat, k: nat, e: nat)
    requires KeysAtMost(n, m) && Full(n, m) && e == if n.isLeaf then m else m + CHILD_BYTES
    requires 2 * m + (sizes.slot + e) * k <= PageSize(n.isLeaf) - sizes.header
    ensures |n.entries| >= k
  {
    FreeAtLeast(n, m, e);
    var c := |n.entries|;
    assert (sizes.slot + e) * (c + 1) == (sizes.slot + e) * c + sizes.slot + e;
    MulMonotone(sizes.slot + e, c + 1, k);
  }

  /** A third of a leaf's entries end up to the right of the separator's slot. */
  lemma RightThird(count: nat, slot: nat)
    requires count >= 3 && slot <= WindowHigh(count)
    ensures count / 3 <= count - slot - 1
  {
  }

  /** The entries on the right take at least a slot each. */
  lemma RightBytes(n: Node, slot: nat, q: nat)
    requires Ordered(n) && slot < |n.entries| && q <= |n.entries| - slot - 1
    ensures sizes.slot * q <= BytesFrom(n, slot + 1)
  {
    SizesAround(n, slot);
    SlotBytesIs(|n.entries| - slot - 1);
    MulMonotone(sizes.slot, q, |n.entries| - slot - 1);
  }

  lemma SmallLeftHalfFits(n: Node, slot: nat, sep: Key, m: nat, q: nat)
    requires Ordered(n) && Fits(n) && n.isLeaf && SplitsAt(n, slot, sep) && |sep| <= m <= sizes.slot * q
    requires |n.entries| >= 3 && slot <= WindowHigh(|n.entries|) && q <= |n.entries| / 3
    ensures Fits(SplitLeft(n, slot, sep))
  {
    RightThird(|n.entries|, slot);
    RightBytes(n, slot, q);
    LeafLeftHalfFits(n, slot, sep);
  }

  /** A full leaf of small entries has a usable separator. */
  lemma SmallSeparator(t: Tree, a: Address, info: SeparatorInfo, m: nat, q: nat)
    requires WellFormed(t) && t.longest <= m && Roomy(m, q) && a in t.nodes
    requires t.nodes[a].isLeaf && |t.nodes[a].entries| >= 3 * q
    ensures !BadSeparator(t.nodes[a], ParentOf(t, a), info)
  {
    var n := t.nodes[a];
    if Picked(n, info) && info.slot < |n.entries| {
      assert NodeOk(t, a);
      SplitUsable(t, a, info);
      if a != t.root {
        ParentAbove(t, a);
        SeparatorFresh(t, a, info);
      }
      SmallLeftHalfFits(n, info.slot, SepKey(n.entries, info), m, q);
    }
  }

  lemma SmallNotStuckAt(t: Tree, a: Address, k: Key, m: nat, q: nat)
    requires WellFormed(t) && t.longest <= m && Roomy(m, q) && StuckAt(t, a, k, m)
    ensures NoMemory(t, a)
  {
    assert NodeOk(t, a);
    var n := t.nodes[a];
    AtMostMore(n, t.longest, m);
    FullHasMany(n, m, if n.isLeaf then 3 * q else 4, if n.isLeaf then m else m + CHILD_BYTES);
    if n.isLeaf {
      forall info ensures !BadSeparator(n, ParentOf(t, a), info) {
        SmallSeparator(t, a, info, m, q);
      }
    }
  }

  /** While all entries are small, only memory can stop an insert. */
  lemma SmallNeverRefuses(t: Tree, k: Key, payload: nat, m: nat)
    requires t.longest <= m && |k| + payload <= m && Small(m) && Refuses(t, k, payload)
    ensures NearlyOut(t)
  {
    RefusalIsStuck(t, k, payload, m);
    var q: nat :| Roomy(m, q);
    var a :| StuckAt(t, a, k, m);
    SmallNotStuckAt(t, a, k, m, q);
  }
}
