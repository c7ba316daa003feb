/** What each tree operation does to the tree value, and that it keeps the invariants and the contents. */
module TreeSteps {
  import opened Bytes
  import opened Layout
  import opened Nodes
  import opened Images
  import opened Separators
  import opened Updates
  import opened Trees

  /** Every key is looked up in t' as it was in t, except k0, which now answers r. */
  ghost predicate SameAnswers(t: Tree, t': Tree) {
    forall k: Key :: SameAnswerAt(t, t', k)
  }

  ghost predicate SameAnswerAt(t: Tree, t': Tree, k: Key) {
    forall m: map<Key, seq<Byte>> :: AnswersAt(t, m, k) ==> AnswersAt(t', m, k)
  }

  lemma AnswersKept(t: Tree, t': Tree, m: map<Key, seq<Byte>>)
    requires SameAnswers(t, t') && Answers(t, m)
    ensures Answers(t', m)
  {
    forall k: Key ensures AnswersAt(t', m, k) {
      assert AnswersAt(t, m, k) && SameAnswerAt(t, t', k);
    }
  }

  // ---- the empty tree ----

  ghost function EmptyTree(): Tree {
    Tree(1, map[1 := Node(true, [], [], [], 0)], map[1 := 0], map[1 := 0], 0)
  }

  lemma EmptyTreeOk()
    ensures WellFormed(EmptyTree()) && Answers(EmptyTree(), map[])
  {
    var t := EmptyTree();
    assert FreeAfterCompaction(t.nodes[1]) >= 0;
    assert NodeOk(t, 1);
    forall k: Key ensures AnswersAt(t, map[], k) {}
  }

  // ---- a leaf's entries change ----

  ghost function LeafStep(t: Tree, a: Address, es: seq<Entry>, longest: nat): Tree
    requires a in t.nodes
  {
    t.(nodes := t.nodes[a := t.nodes[a].(entries := es)], longest := longest)
  }

  lemma AtMostMore(n: Node, m: nat, m': nat)
    requires KeysAtMost(n, m) && m <= m'
    ensures KeysAtMost(n, m')
  {
    forall i | 0 <= i < |n.entries| ensures EntryAtMost(n, i, m') {
      assert EntryAtMost(n, i, m);
    }
  }

  lemma LeafStepOk(t: Tree, a: Address, es: seq<Entry>, longest: nat)
    requires WellFormed(t) && a in t.nodes && t.nodes[a].isLeaf && t.longest <= longest <= MaxKVSize()
    requires var n := t.nodes[a].(entries := es); Ordered(n) && Fits(n) && KeysAtMost(n, longest)
    ensures WellFormed(LeafStep(t, a, es, longest))
  {
    var t' := LeafStep(t, a, es, longest);
    forall b | b in t'.nodes ensures NodeOk(t', b) {
      assert NodeOk(t, b);
      AtMostMore(t.nodes[b], t.longest, longest);
    }
    forall b, i: nat | HasChildIndex(t', b, i) ensures ChildOk(t', b, i) {
      assert HasChildIndex(t, b, i);
      assert ChildOk(t, b, i);
    }
  }

  /** Leaves keep their places when only a leaf's entries change. */
  lemma LeafStepPlace(t: Tree, a: Address, es: seq<Entry>, longest: nat, k: Key)
    requires WellFormed(t) && a in t.nodes && t.nodes[a].isLeaf
    requires WellFormed(LeafStep(t, a, es, longest))
    ensures LeafFor(LeafStep(t, a, es, longest), k) == LeafFor(t, k)
  {
    LeafOk(t, k);
    LeafIs(LeafStep(t, a, es, longest), LeafFor(t, k), k);
  }

  lemma InsertAnswers(t: Tree, a: Address, e: Entry, longest: nat, m: map<Key, seq<Byte>>)
    requires WellFormed(t) && Answers(t, m)
    requires a in t.nodes && a == LeafFor(t, e.key) && t.nodes[a].isLeaf && Ordered(t.nodes[a]) && Ordered(InsertEntry(t.nodes[a], e))
    requires WellFormed(LeafStep(t, a, InsertEntry(t.nodes[a], e).entries, longest))
    ensures Answers(LeafStep(t, a, InsertEntry(t.nodes[a], e).entries, longest), m[e.key := e.payload])
  {
    var es := InsertEntry(t.nodes[a], e).entries;
    var t', m' := LeafStep(t, a, es, longest), m[e.key := e.payload];
    forall k: Key ensures AnswersAt(t', m', k) {
      assert AnswersAt(t, m, k);
      LeafStepPlace(t, a, es, longest, k);
      if LeafFor(t, k) == a {
        LookupInserted(t.nodes[a], e, k);
      }
    }
  }

  lemma RemoveAnswers(t: Tree, a: Address, pos: nat, m: map<Key, seq<Byte>>)
    requires WellFormed(t) && Answers(t, m) && a in t.nodes && t.nodes[a].isLeaf && pos < |t.nodes[a].entries|
    requires a == LeafFor(t, t.nodes[a].entries[pos].key) && Ordered(t.nodes[a]) && Ordered(RemoveAt(t.nodes[a], pos))
    requires WellFormed(LeafStep(t, a, RemoveAt(t.nodes[a], pos).entries, t.longest))
    ensures Answers(LeafStep(t, a, RemoveAt(t.nodes[a], pos).entries, t.longest), m - {t.nodes[a].entries[pos].key})
  {
    var es := RemoveAt(t.nodes[a], pos).entries;
    forall k: Key ensures AnswersAt(LeafStep(t, a, es, t.longest), m - {t.nodes[a].entries[pos].key}, k) {
      assert AnswersAt(t, m, k);
      LeafStepPlace(t, a, es, t.longest, k);
      if LeafFor(t, k) == a {
        LookupRemoved(t.nodes[a], pos, k);
      }
    }
  }

  // ---- a new root ----

  function RootNode(child: Address): Node {
    Node(false, [], [], [], child)
  }

  ghost function RootStep(t: Tree, r: Address): Tree
    requires t.root in t.level
  {
    Tree(r, t.nodes[r := RootNode(t.root)], t.level[r := t.level[t.root] + 1], t.parent[r := 0][t.root := r], t.longest)
  }

  lemma EmptyRootFits(child: Address)
    ensures Ordered(RootNode(child)) && Fits(RootNode(child)) && SpaceUsed(RootNode(child)) == 0
  {
  }

  lemma RootStepOk(t: Tree, r: Address)
    requires WellFormed(t) && r !in t.nodes && r != 0
    ensures WellFormed(RootStep(t, r))
  {
    var t' := RootStep(t, r);
    EmptyRootFits(t.root);
    assert NodeOk(t, t.root);
    forall b | b in t'.nodes ensures NodeOk(t', b) {
      if b == t.root {
        assert IsChildAt(t'.nodes[r], 0, b);
      } else if b != r {
        assert NodeOk(t, b);
      }
    }
    forall b, i: nat | HasChildIndex(t', b, i) ensures ChildOk(t', b, i) {
      if b != r {
        assert HasChildIndex(t, b, i);
        assert ChildOk(t, b, i);
      }
    }
  }

  lemma RootStepAnswers(t: Tree, r: Address)
    requires WellFormed(t) && r !in t.nodes && r != 0
    ensures SameAnswers(t, RootStep(t, r))
  {
    var t' := RootStep(t, r);
    RootStepOk(t, r);
    forall k: Key ensures SameAnswerAt(t, t', k) {
      LeafOk(t, k);
      LeafIs(t', LeafFor(t, k), k);
    }
  }

  // ---- a page splits ----

  /** Distinct children have distinct lower fences. */
  lemma LowerDistinct(n: Node, i: nat, j: nat, m: nat)
    requires Ordered(n) && !n.isLeaf && KeysAtMost(n, m) && i < j <= |n.entries|
    ensures LowerOf(n, i) != LowerOf(n, j)
  {
    assert EntryAtMost(n, j - 1, m);
    LessTotal(LowerOf(n, i), LowerOf(n, j));
    if i == 0 {
      assert Within(n.lower, n.upper, n.entries[j - 1].key);
    } else {
      assert InOrder(n.entries, i - 1, j - 1);
    }
  }

  /** Children and fences of a page that got a separator and a child to its left at i0. */
  lemma ParentAfterSplit(n: Node, i0: nat, sep: Key, left: Address, j: nat)
    requires i0 <= |n.entries| && j <= |n.entries| + 1
    ensures var n' := n.(entries := Inserted(n.entries, i0, Entry(sep, EncodePtr(left))));
      && |n'.entries| == |n.entries| + 1
      && ChildAt(n', j) == (if j < i0 then ChildAt(n, j) else if j == i0 then left else ChildAt(n, j - 1))
      && LowerOf(n', j) == (if j <= i0 then LowerOf(n, j) else if j == i0 + 1 then sep else LowerOf(n, j - 1))
      && UpperOf(n', j) == (if j < i0 then UpperOf(n, j) else if j == i0 then sep else UpperOf(n, j - 1))
  {
  }

  /** Children and fences of the halves of an inner page. */
  lemma HalvesOfInner(n: Node, slot: nat, sep: Key)
    requires !n.isLeaf && slot < |n.entries| && sep == n.entries[slot].key
    ensures var l := SplitLeft(n, slot, sep);
      |l.entries| == slot && forall i {:trigger ChildAt(l, i)} | 0 <= i <= slot ::
        ChildAt(l, i) == ChildAt(n, i) && LowerOf(l, i) == LowerOf(n, i) && UpperOf(l, i) == UpperOf(n, i)
    ensures var r := SplitRight(n, slot, sep);
      |r.entries| == |n.entries| - slot - 1 && forall i {:trigger ChildAt(r, i)} | 0 <= i <= |r.entries| ::
        ChildAt(r, i) == ChildAt(n, slot + 1 + i) && LowerOf(r, i) == LowerOf(n, slot + 1 + i) && UpperOf(r, i) == UpperOf(n, slot + 1 + i)
  {
    var l, r := SplitLeft(n, slot, sep), SplitRight(n, slot, sep);
    forall i | 0 <= i <= slot
      ensures ChildAt(l, i) == ChildAt(n, i) && LowerOf(l, i) == LowerOf(n, i) && UpperOf(l, i) == UpperOf(n, i)
    {
      assert i < slot ==> l.entries[i] == n.entries[i];
      assert i > 0 ==> l.entries[i - 1] == n.entries[i - 1];
    }
  }

  /** The place of a page in its parent: where its separators put it. */
  lemma PlaceOf(t: Tree, a: Address, sep: Key) returns (i: nat)
    requires WellFormed(t) && a in t.nodes && a != t.root && Covers(t, a, sep)
    ensures NodeOk(t, a) && NodeOk(t, t.parent[a]) && IsChildAt(t.nodes[t.parent[a]], i, a)
    ensures i == LowerBound(t.nodes[t.parent[a]].entries, sep)
    ensures Within(t.nodes[t.parent[a]].lower, t.nodes[t.parent[a]].upper, sep)
    ensures t.level[t.parent[a]] == t.level[a] + 1
  {
    assert NodeOk(t, a);
    var p := t.parent[a];
    assert NodeOk(t, p);
    i :| IsChildAt(t.nodes[p], i, a);
    assert HasChildIndex(t, p, i);
    assert ChildOk(t, p, i);
    forall j | 0 <= j < |t.nodes[p].entries| ensures t.nodes[p].entries[j].key != [] {
      assert EntryAtMost(t.nodes[p], j, t.longest);
    }
    ChildOfCovers(t.nodes[p], sep, i);
    LowerBoundUnique(t.nodes[p].entries, sep, i, LowerBound(t.nodes[p].entries, sep));
  }

  /** Distinct places in a page hold distinct children. */
  lemma DistinctChildren(t: Tree, a: Address, i: nat, j: nat)
    requires WellFormed(t) && HasChildIndex(t, a, i) && HasChildIndex(t, a, j) && i != j
    ensures ChildAt(t.nodes[a], i) != ChildAt(t.nodes[a], j)
  {
    assert NodeOk(t, a) && ChildOk(t, a, i) && ChildOk(t, a, j);
    LowerDistinct(t.nodes[a], if i < j then i else j, if i < j then j else i, t.longest);
  }

  /** The shape of a split, without order and space. */
  ghost predicate Splitting(t: Tree, a: Address, slot: nat, left: Address, i0: nat) {
    && WellFormed(t) && a in t.nodes && a != t.root && left !in t.nodes && t.nodes.Keys <= t.parent.Keys
    && a in t.level && a in t.parent && slot < |t.nodes[a].entries|
    && var p := t.parent[a];
      && p in t.nodes && p in t.level && t.level[p] == t.level[a] + 1 && !t.nodes[p].isLeaf
      && IsChildAt(t.nodes[p], i0, a)
  }

  ghost function SplitAt(t: Tree, a: Address, slot: nat, sep: Key, left: Address, i0: nat): Tree
    requires Splitting(t, a, slot, left, i0)
  {
    var p, n := t.parent[a], t.nodes[a];
    var l := SplitLeft(n, slot, sep);
    Tree(t.root,
         t.nodes[left := l][a := SplitRight(n, slot, sep)][p := t.nodes[p].(entries := Inserted(t.nodes[p].entries, i0, Entry(sep, EncodePtr(left))))],
         t.level[left := t.level[a]],
         map c | c in t.nodes.Keys + {left} :: if c == left then p else if !n.isLeaf && HasChild(l, c) then left else t.parent[c],
         t.longest)
  }

  /** A child of the left half is a child of the page that splits. */
  lemma ChildOfLeft(t: Tree, a: Address, slot: nat, sep: Key, c: Address)
    requires WellFormed(t) && a in t.nodes && slot < |t.nodes[a].entries| && sep == t.nodes[a].entries[slot].key
    requires !t.nodes[a].isLeaf && HasChild(SplitLeft(t.nodes[a], slot, sep), c)
    ensures c in t.nodes && c in t.parent && t.parent[c] == a && c in t.level && a in t.level && t.level[c] + 1 == t.level[a]
    ensures exists i: nat :: i <= slot && IsChildAt(t.nodes[a], i, c)
  {
    var l := SplitLeft(t.nodes[a], slot, sep);
    var i: nat :| IsChildAt(l, i, c);
    HalvesOfInner(t.nodes[a], slot, sep);
    assert ChildAt(l, i) == ChildAt(t.nodes[a], i);
    assert IsChildAt(t.nodes[a], i, c);
    assert HasChildIndex(t, a, i);
    assert ChildOk(t, a, i);
  }

  /** Children of other pages keep their parent. */
  lemma ParentKept(t: Tree, a: Address, slot: nat, sep: Key, left: Address, i0: nat, b: Address, i: nat)
    requires Splitting(t, a, slot, left, i0) && (!t.nodes[a].isLeaf ==> sep == t.nodes[a].entries[slot].key)
    requires HasChildIndex(t, b, i) && b != a
    ensures ChildOk(t, b, i)
    ensures var c := ChildAt(t.nodes[b], i); SplitAt(t, a, slot, sep, left, i0).parent[c] == b
  {
    assert ChildOk(t, b, i);
    var c := ChildAt(t.nodes[b], i);
    if !t.nodes[a].isLeaf && HasChild(SplitLeft(t.nodes[a], slot, sep), c) {
      ChildOfLeft(t, a, slot, sep, c);
    }
  }

  lemma SplitChildOfParent(t: Tree, a: Address, slot: nat, sep: Key, left: Address, i0: nat, j: nat)
    requires Splitting(t, a, slot, left, i0) && (!t.nodes[a].isLeaf ==> sep == t.nodes[a].entries[slot].key)
    requires j <= |t.nodes[t.parent[a]].entries| + 1
    ensures ChildOk(SplitAt(t, a, slot, sep, left, i0), t.parent[a], j)
  {
    var p := t.parent[a];
    ParentAfterSplit(t.nodes[p], i0, sep, left, j);
    var j0 := if j <= i0 then j else j - 1;
    assert HasChildIndex(t, p, j0) && HasChildIndex(t, p, i0);
    ParentKept(t, a, slot, sep, left, i0, p, j0);
    ParentKept(t, a, slot, sep, left, i0, p, i0);
    if j0 != i0 {
      DistinctChildren(t, p, i0, j0);
    }
  }

  lemma SplitChildOfLeft(t: Tree, a: Address, slot: nat, sep: Key, left: Address, i0: nat, i: nat)
    requires Splitting(t, a, slot, left, i0) && !t.nodes[a].isLeaf && sep == t.nodes[a].entries[slot].key
    requires i <= slot
    ensures ChildOk(SplitAt(t, a, slot, sep, left, i0), left, i)
  {
    var n := t.nodes[a];
    var l := SplitLeft(n, slot, sep);
    HalvesOfInner(n, slot, sep);
    assert HasChildIndex(t, a, i);
    assert ChildOk(t, a, i);
    assert ChildAt(l, i) == ChildAt(n, i);
    assert IsChildAt(l, i, ChildAt(l, i));
  }

  lemma SplitChildOfRight(t: Tree, a: Address, slot: nat, sep: Key, left: Address, i0: nat, i: nat)
    requires Splitting(t, a, slot, left, i0) && !t.nodes[a].isLeaf && sep == t.nodes[a].entries[slot].key
    requires slot + 1 + i <= |t.nodes[a].entries|
    ensures ChildOk(SplitAt(t, a, slot, sep, left, i0), a, i)
  {
    var n := t.nodes[a];
    var r := SplitRight(n, slot, sep);
    HalvesOfInner(n, slot, sep);
    var c := ChildAt(r, i);
    assert HasChildIndex(t, a, slot + 1 + i);
    assert ChildOk(t, a, slot + 1 + i);
    if HasChild(SplitLeft(n, slot, sep), c) {
      ChildOfLeft(t, a, slot, sep, c);
      var i': nat :| i' <= slot && IsChildAt(n, i', c);
      assert HasChildIndex(t, a, i');
      DistinctChildren(t, a, i', slot + 1 + i);
    }
  }

  lemma SplitChildOfOther(t: Tree, a: Address, slot: nat, sep: Key, left: Address, i0: nat, b: Address, i: nat)
    requires Splitting(t, a, slot, left, i0) && (!t.nodes[a].isLeaf ==> sep == t.nodes[a].entries[slot].key)
    requires HasChildIndex(t, b, i) && b != a && b != t.parent[a]
    ensures ChildOk(SplitAt(t, a, slot, sep, left, i0), b, i)
  {
    ParentKept(t, a, slot, sep, left, i0, b, i);
  }

  lemma PartAtMost(n: Node, part: Node, lo: nat, hi: nat, m: nat)
    requires KeysAtMost(n, m) && lo <= hi <= |n.entries| && part.entries == n.entries[lo..hi] && part.isLeaf == n.isLeaf
    requires |part.lower| <= m && |part.upper| <= m
    ensures KeysAtMost(part, m)
  {
    forall i | 0 <= i < |part.entries| ensures EntryAtMost(part, i, m) {
      assert EntryAtMost(n, lo + i, m);
    }
  }

  lemma ParentAtMost(n: Node, i0: nat, sep: Key, left: Address, m: nat)
    requires KeysAtMost(n, m) && !n.isLeaf && i0 <= |n.entries| && 0 < |sep| <= m
    ensures KeysAtMost(n.(entries := Inserted(n.entries, i0, Entry(sep, EncodePtr(left)))), m)
  {
    var n' := n.(entries := Inserted(n.entries, i0, Entry(sep, EncodePtr(left))));
    forall i | 0 <= i < |n'.entries| ensures EntryAtMost(n', i, m) {
      if i != i0 { assert EntryAtMost(n, if i < i0 then i else i - 1, m); }
    }
  }

  /** What a split needs: halves that fit, a parent with room for a separator it does not hold yet. */
  ghost predicate CanSplit(t: Tree, a: Address, slot: nat, sep: Key, left: Address, i0: nat) {
    && Splitting(t, a, slot, left, i0) && left != 0 && Covers(t, a, sep)
    && SplitsAt(t.nodes[a], slot, sep) && |sep| <= t.longest
    && Fits(SplitLeft(t.nodes[a], slot, sep)) && Fits(SplitRight(t.nodes[a], slot, sep))
    && var n := t.nodes[t.parent[a]];
      && Sorted(n.entries) && i0 == LowerBound(n.entries, sep) && Within(n.lower, n.upper, sep)
      && (forall i | 0 <= i < |n.entries| :: n.entries[i].key != sep)
      && Fits(InsertEntry(n, Entry(sep, EncodePtr(left))))
  }

  /** The halves and the parent keep their own invariants. */
  lemma SplitPagesOk(t: Tree, a: Address, slot: nat, sep: Key, left: Address, i0: nat)
    requires CanSplit(t, a, slot, sep, left, i0)
    ensures var t' := SplitAt(t, a, slot, sep, left, i0);
      PageOk(t'.nodes[left], t.longest) && PageOk(t'.nodes[a], t.longest) && PageOk(t'.nodes[t.parent[a]], t.longest)
  {
    var n, p := t.nodes[a], t.parent[a];
    assert NodeOk(t, a) && NodeOk(t, p);
    SplitOrdered(n, slot, sep);
    SplitSeparates(n, slot, sep);
    InsertOrdered(t.nodes[p], Entry(sep, EncodePtr(left)));
    ParentAtMost(t.nodes[p], i0, sep, left, t.longest);
    HalvesAtMost(n, slot, sep, t.longest);
  }

  lemma HalvesAtMost(n: Node, slot: nat, sep: Key, m: nat)
    requires KeysAtMost(n, m) && slot < |n.entries| && |sep| <= m
    ensures KeysAtMost(SplitLeft(n, slot, sep), m) && KeysAtMost(SplitRight(n, slot, sep), m)
  {
    PartAtMost(n, SplitLeft(n, slot, sep), 0, if n.isLeaf then slot + 1 else slot, m);
    PartAtMost(n, SplitRight(n, slot, sep), slot + 1, |n.entries|, m);
  }

  /** The pages a split touches are the children of the parent it records. */
  lemma SplitHasChildren(t: Tree, a: Address, slot: nat, sep: Key, left: Address, i0: nat, b: Address)
    requires Splitting(t, a, slot, left, i0) && (!t.nodes[a].isLeaf ==> sep == t.nodes[a].entries[slot].key)
    requires (b in t.nodes && b != t.root) || b == left
    ensures var t' := SplitAt(t, a, slot, sep, left, i0);
      b in t'.parent && t'.parent[b] in t'.nodes && !t'.nodes[t'.parent[b]].isLeaf && HasChild(t'.nodes[t'.parent[b]], b)
  {
    var t' := SplitAt(t, a, slot, sep, left, i0);
    var n, p := t.nodes[a], t.parent[a];
    if b == left {
      ParentAfterSplit(t.nodes[p], i0, sep, left, i0);
      assert IsChildAt(t'.nodes[p], i0, left);
    } else if !n.isLeaf && HasChild(SplitLeft(n, slot, sep), b) {
    } else {
      PlaceIs(t, b);
      var q := t.parent[b];
      var i: nat :| IsChildAt(t.nodes[q], i, b);
      if q == a {
        HalvesOfInner(n, slot, sep);
        if i <= slot {
          assert ChildAt(SplitLeft(n, slot, sep), i) == b;
          assert IsChildAt(SplitLeft(n, slot, sep), i, b);
        } else {
          assert ChildAt(SplitRight(n, slot, sep), i - slot - 1) == b;
          assert IsChildAt(t'.nodes[a], i - slot - 1, b);
        }
      } else if q == p {
        var j := if i < i0 then i else i + 1;
        ParentAfterSplit(t.nodes[p], i0, sep, left, j);
        assert IsChildAt(t'.nodes[p], j, b);
      } else {
        assert IsChildAt(t'.nodes[q], i, b);
      }
    }
  }

  lemma SplitPlaceOk(t: Tree, a: Address, slot: nat, sep: Key, left: Address, i0: nat, b: Address)
    requires Splitting(t, a, slot, left, i0) && left != 0 && (!t.nodes[a].isLeaf ==> sep == t.nodes[a].entries[slot].key)
    requires b in t.nodes || b == left
    ensures PlaceOk(SplitAt(t, a, slot, sep, left, i0), b)
  {
    PlaceIs(t, a);
    if b != left {
      PlaceIs(t, b);
    }
    if b != t.root {
      SplitHasChildren(t, a, slot, sep, left, i0, b);
    }
  }

  lemma SplitChildOk(t: Tree, a: Address, slot: nat, sep: Key, left: Address, i0: nat, b: Address, i: nat)
    requires Splitting(t, a, slot, left, i0) && (!t.nodes[a].isLeaf ==> sep == t.nodes[a].entries[slot].key)
    requires HasChildIndex(SplitAt(t, a, slot, sep, left, i0), b, i)
    ensures ChildOk(SplitAt(t, a, slot, sep, left, i0), b, i)
  {
    if b == t.parent[a] {
      ParentAfterSplit(t.nodes[b], i0, sep, left, i0);
      SplitChildOfParent(t, a, slot, sep, left, i0, i);
    } else if b == left {
      SplitChildOfLeft(t, a, slot, sep, left, i0, i);
    } else if b == a {
      SplitChildOfRight(t, a, slot, sep, left, i0, i);
    } else {
      SplitChildOfOther(t, a, slot, sep, left, i0, b, i);
    }
  }

  /** A split keeps the tree well formed. */
  lemma SplitOk(t: Tree, a: Address, slot: nat, sep: Key, left: Address, i0: nat)
    requires CanSplit(t, a, slot, sep, left, i0)
    ensures WellFormed(SplitAt(t, a, slot, sep, left, i0))
  {
    var t' := SplitAt(t, a, slot, sep, left, i0);
    SplitPagesOk(t, a, slot, sep, left, i0);
    forall b | b in t'.nodes ensures NodeOk(t', b) {
      if b in t.nodes { assert NodeOk(t, b); }
      SplitPlaceOk(t, a, slot, sep, left, i0, b);
    }
    forall b, i: nat | HasChildIndex(t', b, i) ensures ChildOk(t', b, i) {
      SplitChildOk(t, a, slot, sep, left, i0, b, i);
    }
  }

  /** A split keeps every answer. */
  lemma SplitAnswers(t: Tree, a: Address, slot: nat, sep: Key, left: Address, i0: nat)
    requires CanSplit(t, a, slot, sep, left, i0) && WellFormed(SplitAt(t, a, slot, sep, left, i0))
    ensures SameAnswers(t, SplitAt(t, a, slot, sep, left, i0))
  {
    var t' := SplitAt(t, a, slot, sep, left, i0);
    forall k: Key ensures SameAnswerAt(t, t', k) {
      LeafOk(t, k);
      SplitAnswerAt(t, a, slot, sep, left, i0, LeafFor(t, k), k);
    }
  }

  lemma SplitAnswerAt(t: Tree, a: Address, slot: nat, sep: Key, left: Address, i0: nat, b: Address, k: Key)
    requires CanSplit(t, a, slot, sep, left, i0) && WellFormed(SplitAt(t, a, slot, sep, left, i0))
    requires t.root in t.level && b == LeafFor(t, k) && NodeOk(t, b) && t.nodes[b].isLeaf && Covers(t, b, k)
    ensures SameAnswerAt(t, SplitAt(t, a, slot, sep, left, i0), k)
  {
    var t' := SplitAt(t, a, slot, sep, left, i0);
    if b == a {
      LookupSplit(t.nodes[a], slot, sep, k);
      LessTotal(k, sep);
      SplitSeparates(t.nodes[a], slot, sep);
      LeafIs(t', if LessEq(k, sep) then left else a, k);
    } else {
      LeafIs(t', b, k);
    }
  }

  // ---- two leaves merge ----

  /** a and right are leaves, children pos and pos + 1 of their parent. */
  ghost predicate Merging(t: Tree, a: Address, right: Address, pos: nat) {
    && WellFormed(t) && a in t.nodes && right in t.nodes && a != t.root && a in t.parent && t.nodes.Keys <= t.parent.Keys
    && t.nodes[a].isLeaf && t.nodes[right].isLeaf
    && var p := t.parent[a];
      && p in t.nodes && !t.nodes[p].isLeaf && pos + 1 <= |t.nodes[p].entries|
      && IsChildAt(t.nodes[p], pos, a) && IsChildAt(t.nodes[p], pos + 1, right)
  }

  /** The left leaf goes, the right one takes its entries and lower fence, the parent drops the separator. */
  ghost function MergeAt(t: Tree, a: Address, right: Address, pos: nat): Tree
    requires Merging(t, a, right, pos)
  {
    var p := t.parent[a];
    t.(nodes := (t.nodes - {a})[right := Merge(t.nodes[a], t.nodes[right])][p := RemoveAt(t.nodes[p], pos)])
  }

  lemma MergingFacts(t: Tree, a: Address, right: Address, pos: nat)
    requires Merging(t, a, right, pos)
    ensures PlaceOk(t, a) && PlaceOk(t, right) && PlaceOk(t, t.parent[a])
    ensures ChildOk(t, t.parent[a], pos) && ChildOk(t, t.parent[a], pos + 1)
    ensures a != right && t.parent[right] == t.parent[a] && right != t.root && t.parent[a] != a && t.parent[a] != right
    ensures t.nodes[a].upper == t.nodes[right].lower != []
  {
    var p := t.parent[a];
    assert NodeOk(t, a) && NodeOk(t, right) && NodeOk(t, p);
    assert HasChildIndex(t, p, pos) && HasChildIndex(t, p, pos + 1);
    assert ChildOk(t, p, pos) && ChildOk(t, p, pos + 1);
    DistinctChildren(t, p, pos, pos + 1);
    assert EntryAtMost(t.nodes[p], pos, t.longest);
  }

  lemma MergedAtMost(l: Node, r: Node, m: nat)
    requires KeysAtMost(l, m) && KeysAtMost(r, m) && l.isLeaf && r.isLeaf
    ensures KeysAtMost(Merge(l, r), m)
  {
    var n := Merge(l, r);
    forall i | 0 <= i < |n.entries| ensures EntryAtMost(n, i, m) {
      if i < |l.entries| { assert EntryAtMost(l, i, m); } else { assert EntryAtMost(r, i - |l.entries|, m); }
    }
  }

  lemma RemovedAtMost(n: Node, pos: nat, m: nat)
    requires KeysAtMost(n, m) && pos < |n.entries|
    ensures KeysAtMost(RemoveAt(n, pos), m)
  {
    forall i | 0 <= i < |n.entries| - 1 ensures EntryAtMost(RemoveAt(n, pos), i, m) {
      assert EntryAtMost(n, if i < pos then i else i + 1, m);
    }
  }

  /** Dropping an entry frees its bytes. */
  lemma RemoveFits(n: Node, pos: nat)
    requires Ordered(n) && Fits(n) && pos < |n.entries|
    ensures Fits(RemoveAt(n, pos))
  {
    KeysHavePrefix(n);
    StoredSizeRemove(n.entries, pos, PrefixLength(n));
    SlotBytesMonotone(|n.entries| - 1, |n.entries|);
  }

  lemma MergePagesOk(t: Tree, a: Address, right: Address, pos: nat)
    requires Merging(t, a, right, pos) && Fits(Merge(t.nodes[a], t.nodes[right]))
    ensures PageOk(Merge(t.nodes[a], t.nodes[right]), t.longest) && PageOk(RemoveAt(t.nodes[t.parent[a]], pos), t.longest)
  {
    MergingFacts(t, a, right, pos);
    assert NodeOk(t, a) && NodeOk(t, right) && NodeOk(t, t.parent[a]);
    MergeOrdered(t.nodes[a], t.nodes[right]);
    MergedAtMost(t.nodes[a], t.nodes[right], t.longest);
    RemoveOrdered(t.nodes[t.parent[a]], pos);
    RemovedAtMost(t.nodes[t.parent[a]], pos, t.longest);
    RemoveFits(t.nodes[t.parent[a]], pos);
  }

  /** Children and fences of a page that lost entry pos. */
  lemma ParentAfterMerge(n: Node, pos: nat, j: nat)
    requires pos < |n.entries| && j < |n.entries|
    ensures var n' := RemoveAt(n, pos);
      && |n'.entries| == |n.entries| - 1
      && ChildAt(n', j) == ChildAt(n, if j < pos then j else j + 1)
      && LowerOf(n', j) == LowerOf(n, if j <= pos then j else j + 1)
      && UpperOf(n', j) == UpperOf(n, if j < pos then j else j + 1)
  {
  }

  lemma MergePlaceOk(t: Tree, a: Address, right: Address, pos: nat, b: Address)
    requires Merging(t, a, right, pos) && b in t.nodes && b != a
    ensures PlaceOk(MergeAt(t, a, right, pos), b)
  {
    var t', p := MergeAt(t, a, right, pos), t.parent[a];
    MergingFacts(t, a, right, pos);
    PlaceIs(t, b);
    if b != t.root {
      var q := t.parent[b];
      var i: nat :| IsChildAt(t.nodes[q], i, b);
      assert HasChildIndex(t, q, i);
      assert ChildOk(t, q, i);
      var j := if q != p || i < pos then i else i - 1;
      if q == p { ParentAfterMerge(t.nodes[p], pos, j); }
      assert IsChildAt(t'.nodes[q], j, b);
    }
  }

  lemma MergeChildOk(t: Tree, a: Address, right: Address, pos: nat, b: Address, i: nat)
    requires Merging(t, a, right, pos)
    requires HasChildIndex(MergeAt(t, a, right, pos), b, i)
    ensures ChildOk(MergeAt(t, a, right, pos), b, i)
  {
    var p := t.parent[a];
    MergingFacts(t, a, right, pos);
    if b == p {
      ParentAfterMerge(t.nodes[p], pos, i);
      var j := if i < pos then i else i + 1;
      assert HasChildIndex(t, p, j) && HasChildIndex(t, p, pos) && HasChildIndex(t, p, pos + 1);
      assert ChildOk(t, p, j);
      if j != pos + 1 {
        DistinctChildren(t, p, j, pos + 1);
      }
      DistinctChildren(t, p, j, pos);
    } else {
      assert HasChildIndex(t, b, i);
      assert ChildOk(t, b, i);
    }
  }

  /** A merge keeps the tree well formed. */
  lemma MergeOk(t: Tree, a: Address, right: Address, pos: nat)
    requires Merging(t, a, right, pos) && Fits(Merge(t.nodes[a], t.nodes[right]))
    ensures WellFormed(MergeAt(t, a, right, pos))
  {
    var t' := MergeAt(t, a, right, pos);
    MergePagesOk(t, a, right, pos);
    MergingFacts(t, a, right, pos);
    forall b | b in t'.nodes ensures NodeOk(t', b) {
      assert NodeOk(t, b);
      MergePlaceOk(t, a, right, pos, b);
    }
    forall b, i: nat | HasChildIndex(t', b, i) ensures ChildOk(t', b, i) {
      MergeChildOk(t, a, right, pos, b, i);
    }
  }

  /** A merge keeps every answer. */
  lemma MergeAnswers(t: Tree, a: Address, right: Address, pos: nat)
    requires Merging(t, a, right, pos) && WellFormed(MergeAt(t, a, right, pos))
    requires Ordered(Merge(t.nodes[a], t.nodes[right]))
    ensures SameAnswers(t, MergeAt(t, a, right, pos))
  {
    forall k: Key ensures SameAnswerAt(t, MergeAt(t, a, right, pos), k) {
      LeafOk(t, k);
      MergeAnswerAt(t, a, right, pos, LeafFor(t, k), k);
    }
  }

  lemma MergeAnswerAt(t: Tree, a: Address, right: Address, pos: nat, b: Address, k: Key)
    requires Merging(t, a, right, pos) && WellFormed(MergeAt(t, a, right, pos))
    requires Ordered(Merge(t.nodes[a], t.nodes[right]))
    requires t.root in t.level && b == LeafFor(t, k) && NodeOk(t, b) && t.nodes[b].isLeaf && Covers(t, b, k)
    ensures SameAnswerAt(t, MergeAt(t, a, right, pos), k)
  {
    var t' := MergeAt(t, a, right, pos);
    var l, r := t.nodes[a], t.nodes[right];
    MergingFacts(t, a, right, pos);
    assert NodeOk(t, a) && NodeOk(t, right);
    if b == a || b == right {
      LessTotal(k, l.upper);
      LookupMerged(l, r, k);
      if b == a {
        if r.upper != [] { LessEqTrans(k, l.upper, r.upper); }
      } else if l.lower != [] {
        LessEqTrans(l.lower, l.upper, k);
      }
      LeafIs(t', right, k);
    } else {
      LeafIs(t', b, k);
    }
  }
}
