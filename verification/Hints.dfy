/** The hint array: heads of slots at equal strides, used to narrow a search. */
module Hints {
  import opened Bytes
  import opened Heads
  import opened Layout
  import opened Nodes
  import opened Images

  const HINTS := 16

  /** Distance between the slots two neighbouring hints describe. */
  function Stride(count: nat): nat {
    count / (HINTS + 1)
  }

  lemma StrideIndex(count: nat, i: nat)
    requires count > 0 && i <= HINTS
    ensures 0 <= Stride(count) * i < count
  {
    MulMonotone(Stride(count), i, HINTS);
  }

  lemma StrideOrder(count: nat, i: nat, j: nat)
    requires i <= j
    ensures Stride(count) * i <= Stride(count) * j
  {
    MulMonotone(Stride(count), i, j);
  }

  /** Hint i is the head of the slot i + 1 strides into the slots. */
  ghost predicate HintsFor(hint: seq<nat>, slots: seq<Slot>) {
    && |hint| == HINTS
    && forall i | 0 <= i < HINTS :: HintFor(hint[i], slots, i)
  }

  ghost predicate HintFor(h: nat, slots: seq<Slot>, i: nat) {
    var at := Stride(|slots|) * (i + 1);
    at < |slots| ==> h == slots[at].head
  }

  ghost predicate HeadsSorted(slots: seq<Slot>) {
    forall i, j | 0 <= i <= j < |slots| :: HeadsInOrder(slots, i, j)
  }

  ghost predicate HeadsInOrder(slots: seq<Slot>, i: nat, j: nat)
    requires i < |slots| && j < |slots|
  {
    slots[i].head <= slots[j].head
  }

  /** Sorted keys give sorted heads. */
  lemma HeadsAreSorted(im: Image)
    requires im.Ok() && Sorted(im.entries)
    ensures HeadsSorted(im.slots)
  {
    Basics(im);
    forall i, j | 0 <= i < j < |im.slots|
      ensures HeadsInOrder(im.slots, i, j)
    {
      assert InOrder(im.entries, i, j);
      SlotAt(im, i);
      SlotAt(im, j);
      StoredLess(im.Prefix(), im.entries[i].key, im.entries[j].key);
      HeadMonotone(im.entries[i].key[|im.Prefix()|..], im.entries[j].key[|im.Prefix()|..]);
    }
  }

  /** Keys with the same prefix compare like what is left of them. */
  lemma StoredLess(p: Key, a: Key, b: Key)
    requires p <= a && p <= b
    ensures Less(a, b) <==> Less(a[|p|..], b[|p|..])
  {
    assert a == p + a[|p|..] && b == p + b[|p|..];
    PrefixShift(p, a[|p|..], b[|p|..]);
  }

  /** pos is the first hint not below keyHead, pos2 the first from there on that differs from it:
      the key's place is between the slots the two stand for. */
  lemma HintWindow(hint: seq<nat>, slots: seq<Slot>, keyHead: nat, pos: nat, pos2: nat)
    requires |slots| > HINTS * 2 && HintsFor(hint, slots) && HeadsSorted(slots)
    requires pos <= pos2 <= HINTS
    requires pos > 0 ==> hint[pos - 1] < keyHead
    requires pos < HINTS ==> hint[pos] >= keyHead
    requires pos2 < HINTS ==> hint[pos2] != keyHead
    ensures 0 <= Stride(|slots|) * pos < |slots|
    ensures pos > 0 ==> slots[Stride(|slots|) * pos].head < keyHead
    ensures pos2 < HINTS ==> Stride(|slots|) * pos <= Stride(|slots|) * (pos2 + 1) < |slots|
    ensures pos2 < HINTS ==> slots[Stride(|slots|) * (pos2 + 1)].head > keyHead
  {
    StrideIndex(|slots|, pos);
    if pos > 0 {
      assert HintFor(hint[pos - 1], slots, pos - 1);
    }
    if pos2 < HINTS {
      StrideIndex(|slots|, pos2 + 1);
      StrideIndex(|slots|, pos + 1);
      StrideOrder(|slots|, pos, pos2 + 1);
      StrideOrder(|slots|, pos + 1, pos2 + 1);
      assert HintFor(hint[pos], slots, pos) && HintFor(hint[pos2], slots, pos2);
      assert HeadsInOrder(slots, Stride(|slots|) * (pos + 1), Stride(|slots|) * (pos2 + 1));
    }
  }

  /** A hint that stands for a slot before slotId, at an unchanged stride, survives an insert at slotId. */
  lemma HintKept(h: nat, was: seq<Slot>, now: seq<Slot>, slotId: nat, j: nat)
    requires slotId < |now| && |was| + 1 == |now| && was[..slotId] == now[..slotId]
    requires Stride(|was|) == Stride(|now|) >= 1
    requires j + 2 <= slotId / Stride(|now|)
    requires HintFor(h, was, j)
    ensures HintFor(h, now, j)
  {
    var dist := Stride(|now|);
    MulMonotone(dist, j + 2, slotId / dist);
    assert dist * (j + 2) == dist * (j + 1) + dist;
    assert dist * (slotId / dist) <= slotId;
    var at := dist * (j + 1);
    assert at < slotId;
    assert was[at] == was[..slotId][at] == now[..slotId][at] == now[at];
  }
}
